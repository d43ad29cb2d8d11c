/** Two of the command-line loops: writing a capture, and discovery with its coverage line. */
module Harness {
  import opened Basics
  import opened Ingest
  import opened PcapFormat
  import Streaming
  import opened Histogram
  import opened Buckets
  import opened StreamProfiles
  import opened Discovery
  import Wire
  import opened FrameMeaning

  // ---------------------------------------------------------------- writing

  /** Write a little-endian microsecond capture. */
  method WritePcap(records: seq<Outgoing>) returns (v: seq<byte>)
    requires AllSliceable(records)
    ensures var fmt := Fmt(false, false); v == GlobalHeader(fmt) + BodyBytes(fmt, records)
  {
    hide U32Bytes, U16Bytes, BodyBytes, ToLe, RecordBytes, WrittenRecord, GlobalHeader;
    ghost var fmt := Fmt(false, false);
    v := ToLe(PCAP_MAGIC_USEC_LE) + [2, 0] + [4, 0] + ToLe(0) + ToLe(0) + ToLe(65535) + ToLe(1);
    WrittenHeader();
    for i := 0 to |records|
      invariant v + BodyBytes(fmt, records[i..]) == GlobalHeader(fmt) + BodyBytes(fmt, records)
    {
      var r := records[i];
      BodyStep(fmt, v, records, i);
      var sec := (r.tsNs / NS_PER_S) % 0x1_0000_0000;
      var usec := r.tsNs % NS_PER_S / 1_000;
      v := v + WrittenRecord(r, sec, usec);
    }
    BodyDone(fmt, v, records);
  }

  /** The bytes the writer appends for one record. */
  function WrittenRecord(r: Outgoing, sec: u32, usec: u32): (b: seq<byte>)
    requires r.Sliceable()
    ensures sec == Seconds(r) && usec == Fraction(Fmt(false, false), r) ==> b == RecordBytes(Fmt(false, false), r)
  {
    ToLe(sec) + ToLe(usec) + ToLe(r.InclLen()) + ToLe(r.OrigLen()) + r.frame[..r.InclLen()]
  }

  lemma WrittenHeader()
    ensures ToLe(PCAP_MAGIC_USEC_LE) + [2, 0] + [4, 0] + ToLe(0) + ToLe(0) + ToLe(65535) + ToLe(1) ==
      GlobalHeader(Fmt(false, false))
  {
    hide ToLe;
    var fmt := Fmt(false, false);
    var m, a, b, c, d, e, f :=
      ToLe(PCAP_MAGIC_USEC_LE), U16Bytes(fmt, 2), U16Bytes(fmt, 4), ToLe(0), ToLe(0), ToLe(65535), ToLe(1);
    assert a == [2, 0] && b == [4, 0];
    assert m + a + b + c + d + e + f == m + (a + b + c + d + e + f);
  }

  lemma BodyStep(fmt: Fmt, v: seq<byte>, records: seq<Outgoing>, i: nat)
    requires AllSliceable(records) && i < |records|
    ensures (v + RecordBytes(fmt, records[i])) + BodyBytes(fmt, records[i + 1..]) == v + BodyBytes(fmt, records[i..])
  {
    hide RecordBytes;
    assert records[i..][1..] == records[i + 1..] && records[i..][0] == records[i];
    ConcatAssociative(v, RecordBytes(fmt, records[i]), BodyBytes(fmt, records[i + 1..]));
  }

  lemma BodyDone(fmt: Fmt, v: seq<byte>, records: seq<Outgoing>)
    requires AllSliceable(records)
    ensures v + BodyBytes(fmt, records[|records|..]) == v
  {
  }

  // ---------------------------------------------------------------- discovery

  function EthertypeOf(buf: seq<byte>): Option<u16> {
    if |buf| < 14 then None
    else
      var et := ReadU16Be(buf, 12);
      if et == 0x8100 then (if |buf| < 18 then Some(0x8100) else Some(ReadU16Be(buf, 16))) else Some(et)
  }

  /** The coarse classifier agrees with the parser: frames without a readable type are never accepted, and
      a type the parser does not handle is the type it reports. */
  lemma EthertypeAgrees(ts: u64, buf: seq<byte>)
    ensures EthertypeOf(buf) == None <==> ParseFrame(ts, buf) == Err(Truncated(|buf|)) && |buf| < 14
    ensures ParseFrame(ts, buf).Ok? ==> EthertypeOf(buf) in {Some(ETHERTYPE_PROFINET), Some(ETHERTYPE_IPV4)}
    ensures ParseFrame(ts, buf).Err? && ParseFrame(ts, buf).error.UnhandledEtherType? ==>
      EthertypeOf(buf) == Some(ParseFrame(ts, buf).error.ethertype)
  {
  }

  /** How discovery files a packet. */
  function Filed(p: Packet): Event {
    match ParseFrame(p.tsNs, p.bytes)
    case Ok(f) => EventOf(f)
    case Err(_) => Event.Unclassified(EthertypeOf(p.bytes))
  }

  /** The coarse type on the wire: the tag's own type where the tag is all there is. */
  function WireType(b: seq<byte>): Option<u16> {
    if |b| < 14 then None
    else if |b| < Wire.Body(b) then Some(0x8100)
    else Some(Wire.U16At(b, Wire.Body(b) - 2))
  }

  /** Where the bytes of a packet say it belongs. */
  function FiledOnWire(p: Packet): Event {
    if Wire.Accepted(p.bytes) then Seen(WireKey(p.bytes), Arrival(p.tsNs, WirePayload(p.bytes)))
    else Event.Unclassified(WireType(p.bytes))
  }

  /** Accepted packets are filed under their key on the wire, the others under their EtherType there. */
  lemma FiledFromWire(p: Packet)
    ensures Filed(p) == FiledOnWire(p)
  {
    AcceptedExactly(p.tsNs, p.bytes);
    TypeFromWire(p.bytes);
    if Wire.Accepted(p.bytes) { EventFromWire(p.tsNs, p.bytes); }
    hide ParseFrame, EventOf, EthertypeOf, WireType, Wire.Accepted;
  }

  lemma TypeFromWire(b: seq<byte>)
    ensures EthertypeOf(b) == WireType(b)
  {
  }

  function FiledAll(packets: seq<Packet>): (r: seq<Event>)
    ensures |r| == |packets| && forall i :: 0 <= i < |r| ==> r[i] == Filed(packets[i])
  {
    seq(|packets|, i requires 0 <= i < |packets| => Filed(packets[i]))
  }

  lemma FiledNext(packets: seq<Packet>, p: Packet)
    ensures FiledAll(packets + [p]) == FiledAll(packets) + [Filed(p)]
  {
  }

  /** Timestamps decodable from a capture, and gaps between them, stay below 2^62. */
  predicate Below62(x: u64) {
    x < 0x4000_0000_0000_0000
  }

  lemma {:induction false} StreamStampsBelow62(packets: seq<Packet>, key: StreamKey)
    requires forall i :: 0 <= i < |packets| ==> Below62(packets[i].tsNs)
    ensures forall i :: 0 <= i < |ArrivalsOf(FiledAll(packets), key)| ==>
      Below62(ArrivalsOf(FiledAll(packets), key)[i].tsNs)
  {
    if packets != [] {
      var k := |packets| - 1;
      StreamStampsBelow62(packets[..k], key);
      assert packets == packets[..k] + [packets[k]];
      FiledNext(packets[..k], packets[k]);
      FiledKeepsStamp(packets[k]);
      hide Filed, FiledAll, ArrivalsOf;
      ArrivalsNext(FiledAll(packets[..k]), Filed(packets[k]), key);
    }
  }

  lemma FiledKeepsStamp(p: Packet)
    ensures Filed(p).Seen? ==> Filed(p).arrival.tsNs == p.tsNs
  {
    hide ProfinetIoPayload, UdpDstPort;
    TimestampIsCarried(p.tsNs, p.bytes);
    hide ParseFrame;
  }

  lemma {:induction false} GapsBelow62(log: seq<Arrival>)
    requires forall i :: 0 <= i < |log| ==> Below62(log[i].tsNs)
    ensures forall i :: 0 <= i < |Gaps(log)| ==> Below62(Gaps(log)[i])
  {
    if |log| >= 2 {
      GapsBelow62(log[..|log| - 1]);
    }
  }

  lemma {:induction false} PacketsBelow62(fmt: Fmt, rest: seq<byte>)
    ensures forall i :: 0 <= i < |Packets(fmt, rest)| ==> Below62(Packets(fmt, rest)[i].tsNs)
    decreases |rest|
  {
    var o := Head(fmt, rest);
    if o.Record? {
      assert |Tail(rest, o.packet)| < |rest|;
      hide Head;
      PacketsBelow62(fmt, Tail(rest, o.packet));
    }
  }

  /** No gap recorded from a capture reaches the values whose bucket edge would overflow. */
  lemma CaptureNeverWraps(fmt: Fmt, rest: seq<byte>, key: StreamKey, rank: nat)
    requires 1 <= rank <= |Gaps(ArrivalsOf(FiledAll(Packets(fmt, rest)), key))|
    ensures !Wraps(OrderStatistic(Gaps(ArrivalsOf(FiledAll(Packets(fmt, rest)), key)), rank))
  {
    hide Packets, FiledAll, ArrivalsOf, Gaps, OrderStatistic;
    var log := ArrivalsOf(FiledAll(Packets(fmt, rest)), key);
    PacketsBelow62(fmt, rest);
    StreamStampsBelow62(Packets(fmt, rest), key);
    GapsBelow62(log);
    StatisticIsSample(Gaps(log), rank);
  }

  /** So on every capture, for every stream and rank, the percentile is within an eighth of the truth. */
  lemma CaptureEstimateBrackets(fmt: Fmt, rest: seq<byte>, key: StreamKey, rank: nat, min: u64, max: u64)
    requires var gaps := Gaps(ArrivalsOf(FiledAll(Packets(fmt, rest)), key));
      1 <= rank <= |gaps| && LogHistogram.Extremes(gaps, min, max)
    ensures var gaps := Gaps(ArrivalsOf(FiledAll(Packets(fmt, rest)), key));
      var x, est := OrderStatistic(gaps, rank), Estimate(gaps, rank, min, max);
      min <= est <= x && (x >= 2 ==> 8 * (x - est) < x)
  {
    CaptureNeverWraps(fmt, rest, key, rank);
    hide Packets, FiledAll, ArrivalsOf, Gaps, OrderStatistic, Estimate, Wraps;
    EstimateBrackets(Gaps(ArrivalsOf(FiledAll(Packets(fmt, rest)), key)), rank, min, max);
  }

  /** Profile a capture: every packet read is filed, in order, until the data ends or turns implausible. */
  method Discover(src: Streaming.StreamingPcapSource) returns (disc: DiscoveryEngine)
    requires src.Valid() && src.packets == []
    modifies src, src.src
    ensures disc.Valid() && src.Valid() && disc.events == FiledAll(src.packets)
    ensures |disc.events| == |src.packets|
    ensures forall i :: 0 <= i < |src.packets| ==> disc.events[i] == FiledOnWire(src.packets[i])
    ensures Streaming.Failed !in old(src.src.schedule) ==> src.packets == Packets(src.fmt, old(src.src.rest))
  {
    hide Head, Packets, Tail, Filed, EventOf, ParseFrame, CutCount, FiledAll, DiscoveryEngine.Valid,
      Streaming.StreamingPcapSource.Valid;
    disc := new DiscoveryEngine();
    ghost var all := src.src.rest;
    FiledNone();
    while true
      invariant src.Valid() && disc.Valid() && fresh(disc) && fresh(disc.Repr)
      invariant disc.events == FiledAll(src.packets)
      invariant src.packets + Packets(src.fmt, src.src.rest) == Packets(src.fmt, all)
      invariant Streaming.Failed !in old(src.src.schedule) ==> Streaming.Failed !in src.src.schedule
      decreases |src.src.rest|
    {
      ghost var rest, done := src.src.rest, src.packets;
      var next := src.NextFrame();
      if next.Err? || next.value.None? {
        if next != Err(Streaming.IoFailure) { ReadsNone(src.fmt, done, rest); }
        AllFiledFromWire(src.packets);
        return;
      }
      ReadsOne(src.fmt, done, rest);
      var p := next.value.value;
      FiledNext(done, p);
      FiledIs(p);
      var et := EthertypeOf(p.bytes);
      var frame := ParseFrame(p.tsNs, p.bytes);
      if frame.Ok? {
        disc.Observe(frame.value);
      } else {
        disc.ObserveUnclassified(et);
      }
    }
  }

  lemma AllFiledFromWire(packets: seq<Packet>)
    ensures |FiledAll(packets)| == |packets|
    ensures forall i :: 0 <= i < |packets| ==> FiledAll(packets)[i] == FiledOnWire(packets[i])
  {
    hide Filed, FiledOnWire;
    forall i | 0 <= i < |packets| ensures FiledAll(packets)[i] == FiledOnWire(packets[i]) {
      FiledFromWire(packets[i]);
    }
  }

  lemma FiledNone()
    ensures FiledAll([]) == []
  {
  }

  lemma FiledIs(p: Packet)
    ensures var frame := ParseFrame(p.tsNs, p.bytes);
      Filed(p) == if frame.Ok? then EventOf(frame.value) else Event.Unclassified(EthertypeOf(p.bytes))
  {
    hide ParseFrame, EventOf;
  }

  /** The report's coverage line: frames in streams, and frames left unclassified. */
  method Coverage(disc: DiscoveryEngine) returns (classified: nat, unclassified: nat)
    requires disc.Valid()
    ensures classified == SeenCount(disc.events) && unclassified == UnclassifiedCount(disc.events)
    ensures classified + unclassified == disc.totalFrames
  {
    hide ArrivalsOf, TallyOf, StreamTotal, TallyTotal, StreamProfile.Valid, SeenCount, UnclassifiedCount;
    ghost var events := disc.events;
    ghost var keys := disc.streams.Keys;
    ghost var types := TallyKeys(disc.byEthertype);
    forall i | 0 <= i < |events|
      ensures if events[i].Seen? then events[i].key in keys else events[i].ethertype in types
    {
      FiledUnderSomething(events, i);
      if events[i].Unclassified? && events[i].ethertype.Some? {
        assert events[i].ethertype.value in disc.byEthertype;
      }
    }
    NothingIsLost(events, keys, types);
    classified := SumStreams(disc);
    unclassified := SumTallies(disc);
  }

  /** Sum of `interarrival.count + 1` over the streams. */
  method SumStreams(disc: DiscoveryEngine) returns (sum: nat)
    requires disc.Valid()
    ensures sum == StreamTotal(disc.events, disc.streams.Keys)
  {
    hide ArrivalsOf, StreamTotal, TalliesOk;
    sum := 0;
    var left := disc.streams.Keys;
    EmptyTotals({}, {});
    NoStreams(disc.events);
    assert disc.streams.Keys - left == {};
    while left != {}
      invariant left <= disc.streams.Keys
      invariant sum == StreamTotal(disc.events, disc.streams.Keys - left)
      decreases left
    {
      var k :| k in left;
      StreamTotalPicks(disc.events, disc.streams.Keys - (left - {k}), k);
      assert disc.streams.Keys - (left - {k}) - {k} == disc.streams.Keys - left;
      sum := sum + (disc.streams[k].interarrival.count + 1);
      left := left - {k};
    }
    assert disc.streams.Keys - left == disc.streams.Keys;
  }

  lemma NoStreams(events: seq<Event>)
    ensures StreamTotal(events, {}) == 0 && TallyTotal(events, {}) == 0
  {
  }

  /** Everything that has a tally: the EtherTypes seen, and the unreadable headers. */
  ghost function TallyKeys(byEthertype: map<u16, nat>): set<Option<u16>> {
    {None} + set et | et in byEthertype :: Some(et)
  }

  /** Sum of the EtherType tallies and the malformed frames. */
  method SumTallies(disc: DiscoveryEngine) returns (sum: nat)
    requires disc.Valid()
    ensures sum == TallyTotal(disc.events, TallyKeys(disc.byEthertype))
  {
    hide TallyOf, TallyTotal, ArrivalsOf, StreamProfile.Valid;
    sum := disc.malformed;
    NoStreams(disc.events);
    ghost var types: set<Option<u16>> := {None};
    TallyTotalPicks(disc.events, types, None);
    assert types - {None} == {};
    var left := disc.byEthertype.Keys;
    while left != {}
      invariant left <= disc.byEthertype.Keys
      invariant types == {None} + set et | et in disc.byEthertype.Keys - left :: Some(et)
      invariant sum == TallyTotal(disc.events, types)
      decreases left
    {
      var et :| et in left;
      left := left - {et};
      ghost var was := types;
      types := types + {Some(et)};
      TallyTotalPicks(disc.events, types, Some(et));
      assert types - {Some(et)} == was;
      sum := sum + disc.byEthertype[et];
    }
    assert types == TallyKeys(disc.byEthertype);
  }
}
