/** The classic capture file format (draft-ietf-opsawg-pcap, sections 4 and 5): a reference reading of a
    byte sequence, a reference encoding, and their round trip. */
module PcapFormat {
  import opened Basics

  const PCAP_MAGIC_USEC_LE: u32 := 0xa1b2c3d4
  const PCAP_MAGIC_USEC_BE: u32 := 0xd4c3b2a1
  const PCAP_MAGIC_NSEC_LE: u32 := 0xa1b23c4d
  const PCAP_MAGIC_NSEC_BE: u32 := 0x4d3cb2a1
  const PCAPNG_MAGIC: u32 := 0x0a0d0d0a
  const MAX_FRAME: nat := 262144
  const GLOBAL_HEADER_LEN: nat := 24
  const RECORD_HEADER_LEN: nat := 16
  const NS_PER_S: nat := 1_000_000_000

  datatype Fmt = Fmt(swapped: bool, nanos: bool)

  datatype FormatError = IsPcapng | BadMagic(magic: u32)

  function FormatOf(magic: u32): Result<Fmt, FormatError> {
    if magic == PCAP_MAGIC_USEC_LE then Ok(Fmt(false, false))
    else if magic == PCAP_MAGIC_USEC_BE then Ok(Fmt(true, false))
    else if magic == PCAP_MAGIC_NSEC_LE then Ok(Fmt(false, true))
    else if magic == PCAP_MAGIC_NSEC_BE then Ok(Fmt(true, true))
    else if magic == PCAPNG_MAGIC then Err(IsPcapng)
    else Err(BadMagic(magic))
  }

  function FromLe(b0: byte, b1: byte, b2: byte, b3: byte): u32 {
    b0 as int + 0x100 * b1 + 0x1_0000 * b2 + 0x100_0000 * b3
  }

  function RdU32(fmt: Fmt, b: seq<byte>, off: nat): u32
    requires off + 4 <= |b|
  {
    if fmt.swapped then FromLe(b[off + 3], b[off + 2], b[off + 1], b[off])
    else FromLe(b[off], b[off + 1], b[off + 2], b[off + 3])
  }

  /** Seconds and fraction as nanoseconds; the 64-bit sum and products never overflow. */
  function StampNs(fmt: Fmt, sec: u32, frac: u32): (ts: u64)
    ensures ts < 0x4000_0000_0000_0000
  {
    if fmt.nanos then sec * NS_PER_S + frac else sec * NS_PER_S + frac * 1_000
  }

  /** One stored packet. `cut`: the capture kept fewer bytes than the packet had. */
  datatype Packet = Packet(tsNs: u64, bytes: seq<byte>, cut: bool)

  /** What stands at the head of the unread bytes. */
  datatype Outcome =
    | Record(packet: Packet)
    | End
    | PartialHeader
    | PartialBody(claimed: u32, available: nat)
    | Implausible(claimed: u32)

  function Head(fmt: Fmt, rest: seq<byte>): (o: Outcome)
    ensures o.Record? ==> RECORD_HEADER_LEN + |o.packet.bytes| <= |rest|
    ensures o.Record? ==> o.packet.tsNs < 0x4000_0000_0000_0000
  {
    if rest == [] then End
    else if |rest| < RECORD_HEADER_LEN then PartialHeader
    else
      var inclLen, origLen := RdU32(fmt, rest, 8), RdU32(fmt, rest, 12);
      if inclLen > MAX_FRAME then Implausible(inclLen)
      else if |rest| - RECORD_HEADER_LEN < inclLen then PartialBody(inclLen, |rest| - RECORD_HEADER_LEN)
      else
        Record(Packet(StampNs(fmt, RdU32(fmt, rest, 0), RdU32(fmt, rest, 4)),
                      rest[RECORD_HEADER_LEN..RECORD_HEADER_LEN + inclLen], inclLen < origLen))
  }

  /** The unread bytes after the packet at their head. */
  function Tail(rest: seq<byte>, p: Packet): seq<byte>
    requires RECORD_HEADER_LEN + |p.bytes| <= |rest|
  {
    rest[RECORD_HEADER_LEN + |p.bytes|..]
  }

  /** All packets up to the first thing that is not one. */
  function Packets(fmt: Fmt, rest: seq<byte>): seq<Packet>
    decreases |rest|
  {
    var o := Head(fmt, rest);
    if o.Record? then [o.packet] + Packets(fmt, Tail(rest, o.packet)) else []
  }

  /** The first thing that is not a packet. */
  function Ending(fmt: Fmt, rest: seq<byte>): (o: Outcome)
    ensures !o.Record?
    decreases |rest|
  {
    var o := Head(fmt, rest);
    if o.Record? then Ending(fmt, Tail(rest, o.packet)) else o
  }

  function CutCount(packets: seq<Packet>): nat {
    if packets == [] then 0
    else CutCount(packets[..|packets| - 1]) + if packets[|packets| - 1].cut then 1 else 0
  }

  lemma CutNext(packets: seq<Packet>, p: Packet)
    ensures CutCount(packets + [p]) == CutCount(packets) + if p.cut then 1 else 0
  {
    assert (packets + [p])[..|packets|] == packets;
  }

  // ---------------------------------------------------------------- reference encoding

  function ToLe(v: u32): (b: seq<byte>)
    ensures |b| == 4 && FromLe(b[0], b[1], b[2], b[3]) == v
  {
    var q1 := v / 0x100;
    var q2 := q1 / 0x100;
    var q3 := q2 / 0x100;
    [v % 0x100, q1 % 0x100, q2 % 0x100, q3]
  }

  function U32Bytes(fmt: Fmt, v: u32): (b: seq<byte>)
    ensures |b| == 4 && RdU32(fmt, b, 0) == v
  {
    var le := ToLe(v);
    if fmt.swapped then [le[3], le[2], le[1], le[0]] else le
  }

  function U16Bytes(fmt: Fmt, v: u16): (b: seq<byte>)
    ensures |b| == 2
  {
    if fmt.swapped then [v / 0x100, v % 0x100] else [v % 0x100, v / 0x100]
  }

  /** A packet to be written: `stored` cuts what is kept of `frame`. */
  datatype Outgoing = Outgoing(tsNs: u64, stored: Option<nat>, frame: seq<byte>)
  {
    function OrigLen(): u32 {
      |frame| % 0x1_0000_0000
    }
    function InclLen(): u32 {
      if stored.Some? then stored.value % 0x1_0000_0000 else OrigLen()
    }
    /** Taking `frame[..incl_len]` is in range. */
    predicate Sliceable() {
      InclLen() <= |frame|
    }
  }

  function Seconds(r: Outgoing): u32 {
    (r.tsNs / NS_PER_S) % 0x1_0000_0000
  }

  function Fraction(fmt: Fmt, r: Outgoing): u32 {
    if fmt.nanos then r.tsNs % NS_PER_S else r.tsNs % NS_PER_S / 1_000
  }

  /** Version 2.4, no time zone or accuracy, snap length 65535, Ethernet. */
  function HeaderRest(fmt: Fmt): (h: seq<byte>)
    ensures |h| == GLOBAL_HEADER_LEN - 4
  {
    U16Bytes(fmt, 2) + U16Bytes(fmt, 4) + U32Bytes(fmt, 0) + U32Bytes(fmt, 0) + U32Bytes(fmt, 65535) + U32Bytes(fmt, 1)
  }

  function GlobalHeader(fmt: Fmt): (h: seq<byte>)
    ensures |h| == GLOBAL_HEADER_LEN
  {
    U32Bytes(fmt, if fmt.nanos then PCAP_MAGIC_NSEC_LE else PCAP_MAGIC_USEC_LE) + HeaderRest(fmt)
  }

  function RecordBytes(fmt: Fmt, r: Outgoing): seq<byte>
    requires r.Sliceable()
  {
    U32Bytes(fmt, Seconds(r)) + U32Bytes(fmt, Fraction(fmt, r))
    + U32Bytes(fmt, r.InclLen()) + U32Bytes(fmt, r.OrigLen())
    + r.frame[..r.InclLen()]
  }

  predicate AllSliceable(records: seq<Outgoing>) {
    forall i :: 0 <= i < |records| ==> records[i].Sliceable()
  }

  function BodyBytes(fmt: Fmt, records: seq<Outgoing>): seq<byte>
    requires AllSliceable(records)
  {
    if records == [] then [] else RecordBytes(fmt, records[0]) + BodyBytes(fmt, records[1..])
  }

  // ---------------------------------------------------------------- round trip

  /** The header of every byte order and precision is recognised as such. */
  lemma HeaderRoundTrips(fmt: Fmt)
    ensures FormatOf(RdU32(Fmt(false, fmt.nanos), GlobalHeader(fmt), 0)) == Ok(fmt)
  {
    var magic := if fmt.nanos then PCAP_MAGIC_NSEC_LE else PCAP_MAGIC_USEC_LE;
    MagicRoundTrips(fmt, magic);
    hide U32Bytes, FormatOf, HeaderRest;
    RdU32Prefix(Fmt(false, fmt.nanos), U32Bytes(fmt, magic), HeaderRest(fmt));
  }

  lemma RdU32Prefix(fmt: Fmt, b: seq<byte>, more: seq<byte>)
    requires |b| >= 4
    ensures RdU32(fmt, b + more, 0) == RdU32(fmt, b, 0)
  {
  }

  lemma MagicRoundTrips(fmt: Fmt, magic: u32)
    requires magic == if fmt.nanos then PCAP_MAGIC_NSEC_LE else PCAP_MAGIC_USEC_LE
    ensures FormatOf(RdU32(Fmt(false, fmt.nanos), U32Bytes(fmt, magic), 0)) == Ok(fmt)
  {
    if fmt.swapped {
      assert ToLe(PCAP_MAGIC_USEC_LE) == [0xd4, 0xc3, 0xb2, 0xa1];
      assert ToLe(PCAP_MAGIC_NSEC_LE) == [0x4d, 0x3c, 0xb2, 0xa1];
    }
  }

  /** What reading back `r` yields. */
  function ReadBack(fmt: Fmt, r: Outgoing): Packet
    requires r.Sliceable()
  {
    Packet(StampNs(fmt, Seconds(r), Fraction(fmt, r)), r.frame[..r.InclLen()], r.InclLen() < r.OrigLen())
  }

  /** Timestamps survive to the precision of the format exactly when the seconds fit 32 bits. */
  lemma StampRoundTrips(fmt: Fmt, r: Outgoing)
    requires r.Sliceable()
    ensures ReadBack(fmt, r).tsNs == (if fmt.nanos then r.tsNs else r.tsNs - r.tsNs % 1_000)
      <==> r.tsNs < 0x1_0000_0000 * NS_PER_S
  {
    SplitStamp(r.tsNs);
  }

  lemma SplitStamp(ts: u64)
    ensures ts == (ts / NS_PER_S) * NS_PER_S + ts % NS_PER_S && ts % 1_000 == (ts % NS_PER_S) % 1_000
    ensures (ts % NS_PER_S) / 1_000 * 1_000 == ts % NS_PER_S - ts % 1_000
    ensures ts / NS_PER_S < 0x1_0000_0000 <==> ts < 0x1_0000_0000 * NS_PER_S
  {
    var f := ts % NS_PER_S;
    assert ts == (ts / NS_PER_S) * NS_PER_S + f;
    assert ts % 1_000 == f % 1_000;
    assert f / 1_000 * 1_000 == f - f % 1_000;
  }

  lemma RdU32At(fmt: Fmt, b: seq<byte>, off: nat, v: u32)
    requires off + 4 <= |b| && b[off..off + 4] == U32Bytes(fmt, v)
    ensures RdU32(fmt, b, off) == v
  {
    var w := U32Bytes(fmt, v);
    assert b[off] == w[0] && b[off + 1] == w[1] && b[off + 2] == w[2] && b[off + 3] == w[3];
  }

  lemma RecordLayout(fmt: Fmt, r: Outgoing, tail: seq<byte>)
    requires r.Sliceable()
    ensures var b := RecordBytes(fmt, r) + tail; var n := 16 + r.InclLen();
      && |b| == n + |tail|
      && RdU32(fmt, b, 0) == Seconds(r) && RdU32(fmt, b, 4) == Fraction(fmt, r)
      && RdU32(fmt, b, 8) == r.InclLen() && RdU32(fmt, b, 12) == r.OrigLen()
      && b[16..n] == r.frame[..r.InclLen()] && b[n..] == tail
  {
    hide U32Bytes, RdU32, Seconds, Fraction;
    var b := RecordBytes(fmt, r) + tail;
    RdU32At(fmt, b, 0, Seconds(r));
    RdU32At(fmt, b, 4, Fraction(fmt, r));
    RdU32At(fmt, b, 8, r.InclLen());
    RdU32At(fmt, b, 12, r.OrigLen());
  }

  /** A record whose stored part is plausible is read back; a larger one stops the reader. */
  lemma RecordRoundTrips(fmt: Fmt, r: Outgoing, tail: seq<byte>)
    requires r.Sliceable()
    ensures var b := RecordBytes(fmt, r) + tail;
      if r.InclLen() <= MAX_FRAME
      then Head(fmt, b) == Record(ReadBack(fmt, r)) && Tail(b, ReadBack(fmt, r)) == tail
      else Head(fmt, b) == Implausible(r.InclLen())
  {
    hide U32Bytes, RdU32, Seconds, Fraction, StampNs, RecordBytes;
    RecordLayout(fmt, r, tail);
  }

  /** Number of leading records whose stored part a reader accepts. */
  function Storable(records: seq<Outgoing>): (k: nat)
    ensures k <= |records|
  {
    if records == [] || records[0].InclLen() > MAX_FRAME then 0 else 1 + Storable(records[1..])
  }

  function ReadBackAll(fmt: Fmt, records: seq<Outgoing>): seq<Packet>
    requires AllSliceable(records)
  {
    if records == [] then [] else [ReadBack(fmt, records[0])] + ReadBackAll(fmt, records[1..])
  }

  /** Reading an encoded capture returns its records, in all four formats, up to the first one stored
      with more than 256 KiB; a capture without such a record is returned whole and ends cleanly. */
  lemma {:induction false} CaptureRoundTrips(fmt: Fmt, records: seq<Outgoing>)
    requires AllSliceable(records)
    ensures var k := Storable(records);
      && Packets(fmt, BodyBytes(fmt, records)) == ReadBackAll(fmt, records[..k])
      && Ending(fmt, BodyBytes(fmt, records)) == if k == |records| then End else Implausible(records[k].InclLen())
  {
    hide RecordBytes, Head, ReadBack;
    if records == [] {
      assert Head(fmt, []) == End by { HeadOfNothing(fmt); }
    } else {
      RecordRoundTrips(fmt, records[0], BodyBytes(fmt, records[1..]));
      if records[0].InclLen() <= MAX_FRAME {
        CaptureRoundTrips(fmt, records[1..]);
        var k := Storable(records);
        assert records[..k][1..] == records[1..][..k - 1];
      } else {
        assert records[..0] == [];
      }
    }
  }

  lemma HeadOfNothing(fmt: Fmt)
    ensures Head(fmt, []) == End
  {
  }

  // ---------------------------------------------------------------- reading on

  /** One packet is read off the head of the bytes. */
  lemma ReadsOne(fmt: Fmt, done: seq<Packet>, rest: seq<byte>)
    requires Head(fmt, rest).Record?
    ensures var p := Head(fmt, rest).packet;
      && (done + [p]) + Packets(fmt, Tail(rest, p)) == done + Packets(fmt, rest)
      && Ending(fmt, Tail(rest, p)) == Ending(fmt, rest)
      && |Tail(rest, p)| < |rest|
  {
    var p := Head(fmt, rest).packet;
    assert |Tail(rest, p)| < |rest|;
    hide Head, Tail;
    ConcatAssociative(done, [p], Packets(fmt, Tail(rest, p)));
  }

  lemma ReadsNone(fmt: Fmt, done: seq<Packet>, rest: seq<byte>)
    requires !Head(fmt, rest).Record?
    ensures done + Packets(fmt, rest) == done && Ending(fmt, rest) == Head(fmt, rest)
  {
  }
}
