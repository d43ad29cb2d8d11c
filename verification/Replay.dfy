/** The eager reader: the whole capture in memory, and a cursor. */
module Replay {
  import opened Basics
  import opened PcapFormat

  datatype PcapError =
    | Format(error: FormatError)
    | TruncatedRecord(offset: nat)
    | TruncatedData(claimed: u32, available: nat)
    | ImplausibleLength(claimed: u32)

  class PcapReplaySource {
    const data: seq<byte>
    const fmt: Fmt
    var cursor: nat
    var recordsRead: nat
    var truncatedRecords: nat
    /** Everything returned so far. */
    ghost var packets: seq<Packet>

    ghost predicate Valid()
      reads this
    {
      GLOBAL_HEADER_LEN <= cursor <= |data| && recordsRead == |packets| && truncatedRecords == CutCount(packets)
    }

    ghost function Rest(): seq<byte>
      reads this
      requires Valid()
    {
      data[cursor..]
    }

    constructor (data: seq<byte>, fmt: Fmt)
      requires |data| >= GLOBAL_HEADER_LEN
      ensures Valid() && Rest() == data[GLOBAL_HEADER_LEN..] && packets == [] && this.fmt == fmt && this.data == data
    {
      this.data, this.fmt := data, fmt;
      cursor, recordsRead, truncatedRecords := GLOBAL_HEADER_LEN, 0, 0;
      packets := [];
    }

    /** The next packet; `Ok(None)` at a clean end. */
    method NextFrame() returns (r: Result<Option<Packet>, PcapError>)
      requires Valid()
      modifies this
      ensures Valid()
      ensures var o := Head(fmt, old(Rest()));
        if o.Record? then
          r == Ok(Some(o.packet)) && Rest() == Tail(old(Rest()), o.packet) && packets == old(packets) + [o.packet]
        else
          && cursor == old(cursor) && packets == old(packets)
          && r == match o
                  case PartialHeader => Err(TruncatedRecord(cursor))
                  case PartialBody(claimed, available) => Err(TruncatedData(claimed, available))
                  case Implausible(claimed) => Err(ImplausibleLength(claimed))
                  case _ => Ok(None)
    {
      hide CutCount;
      if cursor + RECORD_HEADER_LEN > |data| {
        if cursor == |data| {
          return Ok(None);
        }
        return Err(TruncatedRecord(cursor));
      }
      var tsSec := RdU32(fmt, data, cursor);
      var tsFrac := RdU32(fmt, data, cursor + 4);
      var inclLen := RdU32(fmt, data, cursor + 8);
      var origLen := RdU32(fmt, data, cursor + 12);
      ghost var rest := Rest();
      RdU32Drop(fmt, data, cursor, 0);
      RdU32Drop(fmt, data, cursor, 4);
      RdU32Drop(fmt, data, cursor, 8);
      RdU32Drop(fmt, data, cursor, 12);
      hide RdU32;
      if inclLen > MAX_FRAME {
        return Err(ImplausibleLength(inclLen));
      }
      var dataStart := cursor + RECORD_HEADER_LEN;
      var available := |data| - dataStart;
      if inclLen > available {
        return Err(TruncatedData(inclLen, available));
      }
      var packet := Packet(StampNs(fmt, tsSec, tsFrac), data[dataStart..dataStart + inclLen], inclLen < origLen);
      assert packet.bytes == rest[RECORD_HEADER_LEN..RECORD_HEADER_LEN + inclLen];
      recordsRead := recordsRead + 1;
      if inclLen < origLen {
        truncatedRecords := truncatedRecords + 1;
      }
      CutNext(packets, packet);
      packets := packets + [packet];
      cursor := dataStart + inclLen;
      r := Ok(Some(packet));
    }
  }

  lemma RdU32Drop(fmt: Fmt, data: seq<byte>, cursor: nat, off: nat)
    requires cursor + off + 4 <= |data|
    ensures RdU32(fmt, data[cursor..], off) == RdU32(fmt, data, cursor + off)
  {
  }

  /** Accept or reject the global header. */
  method FromBytes(data: seq<byte>) returns (r: Result<PcapReplaySource, PcapError>)
    ensures |data| < GLOBAL_HEADER_LEN ==> r == Err(TruncatedRecord(0))
    ensures |data| >= GLOBAL_HEADER_LEN ==>
      match FormatOf(RdU32(Fmt(false, false), data, 0))
      case Err(e) => r == Err(Format(e))
      case Ok(fmt) => r.Ok? && fresh(r.value) && r.value.Valid() && r.value.fmt == fmt && r.value.packets == []
                      && r.value.Rest() == data[GLOBAL_HEADER_LEN..]
  {
    if |data| < GLOBAL_HEADER_LEN {
      return Err(TruncatedRecord(0));
    }
    var fmt := FormatOf(RdU32(Fmt(false, false), data, 0));
    if fmt.Err? {
      return Err(Format(fmt.error));
    }
    var source := new PcapReplaySource(data, fmt.value);
    r := Ok(source);
  }
}
