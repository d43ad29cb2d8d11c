/** The bounded-memory reader, over a byte source that may deliver short reads and interruptions. */
module Streaming {
  import opened Basics
  import opened PcapFormat

  /** How the source answers one read: at most `n` bytes, an interruption, or a hard failure. */
  datatype Chunk = Short(n: nat) | Interrupted | Failed

  datatype ReadOutcome = Delivered(bytes: seq<byte>) | WasInterrupted | HardError

  /** A byte source with a finite script of misbehaviour, after which it delivers all it is asked for. */
  class ByteSource {
    var rest: seq<byte>
    var schedule: seq<Chunk>

    constructor (data: seq<byte>, schedule: seq<Chunk>)
      ensures rest == data && this.schedule == schedule
    {
      rest, this.schedule := data, schedule;
    }

    /** `read` into a buffer of `n` bytes. Zero bytes are delivered only at the end of the data. */
    method Read(n: nat) returns (r: ReadOutcome)
      requires n > 0
      modifies this
      ensures r.Delivered? ==> r.bytes + rest == old(rest) && |r.bytes| <= n && (r.bytes == [] <==> old(rest) == [])
      ensures !r.Delivered? ==> rest == old(rest)
      ensures r.HardError? ==> Failed in old(schedule)
      ensures schedule == if old(schedule) == [] then [] else old(schedule)[1..]
      ensures old(schedule) == [] ==> r.Delivered?
    {
      var limit := n;
      if schedule != [] {
        var c := schedule[0];
        schedule := schedule[1..];
        if c.Interrupted? {
          return WasInterrupted;
        } else if c.Failed? {
          return HardError;
        }
        limit := Min(n, Max(1, c.n));
      }
      var k := Min(limit, |rest|);
      r := Delivered(rest[..k]);
      rest := rest[k..];
    }
  }

  datatype ReadState = Full | Partial | Eof

  datatype IoError = Io

  /** Read `n` bytes, telling a clean end from a partial read. What is read and decided depends on the
      remaining bytes alone, whatever the schedule. */
  method ReadFullOrEof(src: ByteSource, n: nat) returns (r: Result<ReadState, IoError>, buf: seq<byte>)
    modifies src
    ensures r.Err? ==> Failed in old(src.schedule)
    ensures Failed !in old(src.schedule) ==> Failed !in src.schedule
    ensures r.Ok? ==>
      && buf == old(src.rest)[..Min(n, |old(src.rest)|)]
      && src.rest == old(src.rest)[Min(n, |old(src.rest)|)..]
      && r.value == if |old(src.rest)| >= n then Full else if old(src.rest) == [] then Eof else Partial
  {
    buf := [];
    while |buf| < n
      invariant |buf| <= n && buf + src.rest == old(src.rest)
      invariant Failed !in old(src.schedule) ==> Failed !in src.schedule
      decreases n - |buf| + |src.schedule|
    {
      ghost var was, before := buf, src.rest;
      var got := src.Read(n - |buf|);
      if got.WasInterrupted? {
        continue;
      } else if got.HardError? {
        return Err(Io), buf;
      }
      if got.bytes == [] {
        assert before == [] && src.rest == [];
        return Ok(if buf == [] then Eof else Partial), buf;
      }
      buf := buf + got.bytes;
      ConcatAssociative(was, got.bytes, src.rest);
    }
    r := Ok(Full);
  }

  /** Read `n` bytes, or report that the data ended first. */
  method ReadExactOrShort(src: ByteSource, n: nat) returns (r: Result<bool, IoError>, buf: seq<byte>)
    modifies src
    ensures r.Err? ==> Failed in old(src.schedule)
    ensures Failed !in old(src.schedule) ==> Failed !in src.schedule
    ensures r.Ok? ==>
      && buf == old(src.rest)[..Min(n, |old(src.rest)|)]
      && src.rest == old(src.rest)[Min(n, |old(src.rest)|)..]
      && (r.value <==> |old(src.rest)| >= n)
  {
    buf := [];
    while |buf| < n
      invariant |buf| <= n && buf + src.rest == old(src.rest)
      invariant Failed !in old(src.schedule) ==> Failed !in src.schedule
      decreases n - |buf| + |src.schedule|
    {
      ghost var was, before := buf, src.rest;
      var got := src.Read(n - |buf|);
      if got.WasInterrupted? {
        continue;
      } else if got.HardError? {
        return Err(Io), buf;
      }
      if got.bytes == [] {
        assert before == [] && src.rest == [];
        return Ok(false), buf;
      }
      buf := buf + got.bytes;
      ConcatAssociative(was, got.bytes, src.rest);
    }
    r := Ok(true);
  }

  datatype StreamPcapError = IoFailure | Format(error: FormatError) | ImplausibleLength(claimed: u32)

  class StreamingPcapSource {
    const src: ByteSource
    const fmt: Fmt
    var truncatedRecords: nat
    var recordsRead: nat
    var endedMidRecord: bool
    /** Everything returned so far. */
    ghost var packets: seq<Packet>

    ghost predicate Valid()
      reads this
    {
      recordsRead == |packets| && truncatedRecords == CutCount(packets)
    }

    constructor (src: ByteSource, fmt: Fmt)
      ensures Valid() && packets == [] && !endedMidRecord && this.src == src && this.fmt == fmt
    {
      this.src, this.fmt := src, fmt;
      truncatedRecords, recordsRead, endedMidRecord := 0, 0, false;
      packets := [];
    }

    lemma CountersMean()
      requires Valid()
      ensures recordsRead == |packets| && truncatedRecords == CutCount(packets)
    {
    }

    /** The next packet; `Ok(None)` when the data ends, with `endedMidRecord` set if it ends inside one. */
    method NextFrame() returns (r: Result<Option<Packet>, StreamPcapError>)
      requires Valid()
      modifies this, src
      ensures Valid()
      ensures Failed !in old(src.schedule) ==> Failed !in src.schedule
      ensures r == Err(IoFailure) ==>
        Failed in old(src.schedule) && packets == old(packets) && endedMidRecord == old(endedMidRecord)
      ensures r != Err(IoFailure) ==>
        var o := Head(fmt, old(src.rest));
        if o.Record? then
          && r == Ok(Some(o.packet)) && src.rest == Tail(old(src.rest), o.packet)
          && packets == old(packets) + [o.packet] && endedMidRecord == old(endedMidRecord)
        else
          && packets == old(packets)
          && endedMidRecord == (old(endedMidRecord) || o.PartialHeader? || o.PartialBody?)
          && r == if o.Implausible? then Err(ImplausibleLength(o.claimed)) else Ok(None)
    {
      hide CutCount;
      ghost var all := src.rest;
      var state, rhdr := ReadFullOrEof(src, RECORD_HEADER_LEN);
      if state.Err? {
        return Err(IoFailure);
      }
      match state.value {
        case Eof => return Ok(None);
        case Partial =>
          endedMidRecord := true;
          return Ok(None);
        case Full =>
      }
      var tsSec := RdU32(fmt, rhdr, 0);
      var tsFrac := RdU32(fmt, rhdr, 4);
      var inclLen := RdU32(fmt, rhdr, 8);
      var origLen := RdU32(fmt, rhdr, 12);
      RdU32Take(fmt, all, 0);
      RdU32Take(fmt, all, 4);
      RdU32Take(fmt, all, 8);
      RdU32Take(fmt, all, 12);
      hide RdU32;
      if inclLen > MAX_FRAME {
        return Err(ImplausibleLength(inclLen));
      }
      var full, scratch := ReadExactOrShort(src, inclLen);
      if full.Err? {
        return Err(IoFailure);
      }
      if !full.value {
        endedMidRecord := true;
        return Ok(None);
      }
      assert scratch == all[RECORD_HEADER_LEN..RECORD_HEADER_LEN + inclLen];
      var packet := Packet(StampNs(fmt, tsSec, tsFrac), scratch, inclLen < origLen);
      recordsRead := recordsRead + 1;
      if inclLen < origLen {
        truncatedRecords := truncatedRecords + 1;
      }
      CutNext(packets, packet);
      packets := packets + [packet];
      r := Ok(Some(packet));
    }
  }

  lemma RdU32Take(fmt: Fmt, data: seq<byte>, off: nat)
    requires off + 4 <= RECORD_HEADER_LEN <= |data|
    ensures RdU32(fmt, data[..RECORD_HEADER_LEN], off) == RdU32(fmt, data, off)
  {
  }

  /** Accept or reject the global header. */
  method Open(src: ByteSource) returns (r: Result<StreamingPcapSource, StreamPcapError>)
    modifies src
    ensures Failed !in old(src.schedule) ==> Failed !in src.schedule
    ensures |old(src.rest)| < GLOBAL_HEADER_LEN ==> r == Err(IoFailure)
    ensures r == Err(IoFailure) ==> Failed in old(src.schedule) || |old(src.rest)| < GLOBAL_HEADER_LEN
    ensures |old(src.rest)| >= GLOBAL_HEADER_LEN && r != Err(IoFailure) ==>
      match FormatOf(RdU32(Fmt(false, false), old(src.rest), 0))
      case Err(e) => r == Err(Format(e))
      case Ok(fmt) => r.Ok? && fresh(r.value) && r.value.Valid() && r.value.fmt == fmt && r.value.src == src
                      && r.value.packets == [] && !r.value.endedMidRecord
                      && src.rest == old(src.rest)[GLOBAL_HEADER_LEN..]
  {
    var full, ghdr := ReadExactOrShort(src, GLOBAL_HEADER_LEN);
    if full.Err? || !full.value {
      return Err(IoFailure);
    }
    var fmt := FormatOf(RdU32(Fmt(false, false), ghdr, 0));
    assert ghdr == old(src.rest)[..GLOBAL_HEADER_LEN];
    if fmt.Err? {
      return Err(Format(fmt.error));
    }
    var source := new StreamingPcapSource(src, fmt.value);
    r := Ok(source);
  }
}
