/** Triage of an incoming capture: facts the file contains, and a verdict derived from them. */
module Preflight {
  import opened Basics
  import opened Ingest
  import opened PcapFormat
  import Streaming
  import opened Discovery
  import opened Harness

  datatype PreflightVerdict = Analyzable | CoverageGap | RejectedEmpty | RejectedFormat(isPcapng: bool)

  datatype PreflightStats = PreflightStats(
    total: nat, classifiable: nat, unclassified: nat, malformed: nat, vlanFrames: nat,
    truncated: nat, endedMidRecord: bool, spanNs: u64, minDeltaNs: Option<u64>, ethertypes: map<u16, nat>)
  {
    /** More than one frame in five unclassified is a coverage gap. */
    function Verdict(): PreflightVerdict {
      if total == 0 then RejectedEmpty else if 5 * unclassified > total then CoverageGap else Analyzable
    }
  }

  const NO_STATS := PreflightStats(0, 0, 0, 0, 0, 0, false, 0, None, map[])

  predicate Tagged(buf: seq<byte>) {
    |buf| >= 14 && buf[12] == 0x81 && buf[13] == 0x00
  }

  // ---------------------------------------------------------------- what the statistics mean

  /** What a packet may be counted for. */
  datatype Feature = Accepted | Rejected | Unreadable | VlanTagged | Typed(ethertype: u16)

  predicate Has(p: Packet, f: Feature) {
    match f
    case Accepted => ParseFrame(p.tsNs, p.bytes).Ok?
    case Rejected => ParseFrame(p.tsNs, p.bytes).Err?
    case Unreadable => |p.bytes| < 14
    case VlanTagged => |p.bytes| >= 14 && ReadU16Be(p.bytes, 12) == ETHERTYPE_VLAN
    case Typed(et) => EthertypeOf(p.bytes) == Some(et)
  }

  /** How many packets have the feature. */
  function Count(packets: seq<Packet>, f: Feature): nat {
    if packets == [] then 0
    else Count(packets[..|packets| - 1], f) + if Has(packets[|packets| - 1], f) then 1 else 0
  }

  lemma CountNext(packets: seq<Packet>, p: Packet, f: Feature)
    ensures Count(packets + [p], f) == Count(packets, f) + if Has(p, f) then 1 else 0
  {
    assert (packets + [p])[..|packets|] == packets;
  }

  /** The counters count what they are named after. */
  ghost predicate CountsRight(packets: seq<Packet>, s: PreflightStats) {
    && s.total == |packets|
    && s.classifiable == Count(packets, Accepted) && s.unclassified == Count(packets, Rejected)
    && s.malformed == Count(packets, Unreadable) && s.vlanFrames == Count(packets, VlanTagged)
    && (forall et: u16 :: (et in s.ethertypes <==> Count(packets, Typed(et)) > 0)
                          && (et in s.ethertypes ==> s.ethertypes[et] == Count(packets, Typed(et))))
  }

  /** How far time moves from the packet before to the `i`-th one. */
  function Step(packets: seq<Packet>, i: int): int
    requires 0 < i < |packets|
  {
    packets[i].tsNs - packets[i - 1].tsNs
  }

  /** The smallest step forward between consecutive packets, if there is any. */
  ghost predicate SmallestStep(packets: seq<Packet>, d: Option<u64>) {
    match d
    case None => forall i :: 0 < i < |packets| ==> Step(packets, i) <= 0
    case Some(d) =>
      && d > 0 && (exists i :: 0 < i < |packets| && Step(packets, i) == d)
      && forall i :: 0 < i < |packets| && Step(packets, i) > 0 ==> Step(packets, i) >= d
  }

  function Span(packets: seq<Packet>): u64 {
    if packets == [] then 0 else SaturatingSub(packets[|packets| - 1].tsNs, packets[0].tsNs)
  }

  // ---------------------------------------------------------------- one packet more

  /** The loop's bookkeeping of time. */
  ghost predicate Timed(packets: seq<Packet>, firstTs: Option<u64>, lastTs: u64, minDelta: u64) {
    && (forall i :: 0 <= i < |packets| ==> Below62(packets[i].tsNs))
    && firstTs == (if packets == [] then None else Some(packets[0].tsNs))
    && (packets != [] ==> lastTs == packets[|packets| - 1].tsNs)
    && SmallestStep(packets, if minDelta == MAX_U64 then None else Some(minDelta))
  }

  lemma TimedNext(packets: seq<Packet>, p: Packet, firstTs: Option<u64>, lastTs: u64, minDelta: u64)
    requires Timed(packets, firstTs, lastTs, minDelta) && Below62(p.tsNs)
    ensures var closer := firstTs.Some? && p.tsNs >= lastTs && 0 < p.tsNs - lastTs < minDelta;
      Timed(packets + [p], if firstTs == None then Some(p.tsNs) else firstTs, p.tsNs,
            if closer then p.tsNs - lastTs else minDelta)
  {
    SmallestStepNext(packets, p, if minDelta == MAX_U64 then None else Some(minDelta));
    hide SmallestStep;
  }

  lemma SmallestStepNext(packets: seq<Packet>, p: Packet, was: Option<u64>)
    requires SmallestStep(packets, was)
    ensures var step := if packets == [] then 0 else p.tsNs - packets[|packets| - 1].tsNs;
      SmallestStep(packets + [p], if step > 0 && (was == None || step < was.value) then Some(step) else was)
  {
    var all, n := packets + [p], |packets|;
    assert forall i :: 0 < i < n ==> Step(all, i) == Step(packets, i);
    if n > 0 {
      assert Step(all, n) == p.tsNs - packets[n - 1].tsNs;
    }
    if was.Some? {
      var i :| 0 < i < n && Step(packets, i) == was.value;
      assert Step(all, i) == was.value;
    }
  }

  /** One packet's contribution to the counters. */
  method CountOne(was: PreflightStats, p: Packet, ghost packets: seq<Packet>) returns (s: PreflightStats)
    requires CountsRight(packets, was)
    ensures CountsRight(packets + [p], s)
  {
    hide ParseFrame, Count, CountsRight;
    s := was.(total := was.total + 1);
    if Tagged(p.bytes) {
      s := s.(vlanFrames := s.vlanFrames + 1);
    }
    var et := EthertypeOf(p.bytes);
    match et {
      case Some(et) =>
        s := s.(ethertypes := s.ethertypes[et := (if et in s.ethertypes then s.ethertypes[et] else 0) + 1]);
      case None => s := s.(malformed := s.malformed + 1);
    }
    if ParseFrame(p.tsNs, p.bytes).Ok? {
      s := s.(classifiable := s.classifiable + 1);
    } else {
      s := s.(unclassified := s.unclassified + 1);
    }
    CountedRight(packets, was, p, s);
  }

  lemma CountedRight(packets: seq<Packet>, was: PreflightStats, p: Packet, s: PreflightStats)
    requires CountsRight(packets, was)
    requires var et, ok := EthertypeOf(p.bytes), ParseFrame(p.tsNs, p.bytes).Ok?;
      && s.total == was.total + 1 && s.vlanFrames == was.vlanFrames + (if Tagged(p.bytes) then 1 else 0)
      && s.malformed == was.malformed + (if et == None then 1 else 0)
      && s.classifiable == was.classifiable + (if ok then 1 else 0)
      && s.unclassified == was.unclassified + (if ok then 0 else 1)
      && s.ethertypes == if et == None then was.ethertypes
                         else was.ethertypes[et.value :=
                           (if et.value in was.ethertypes then was.ethertypes[et.value] else 0) + 1]
    ensures CountsRight(packets + [p], s)
  {
    hide ParseFrame, Count;
    forall f { CountNext(packets, p, f); }
  }

  // ---------------------------------------------------------------- the triage

  /** The facts of everything the reader delivers. */
  ghost predicate Measures(packets: seq<Packet>, s: PreflightStats) {
    && CountsRight(packets, s) && s.truncated == CutCount(packets)
    && s.spanNs == Span(packets) && SmallestStep(packets, s.minDeltaNs)
  }

  /** Read an accepted capture to its end, or to the first error, and measure it. */
  method MeasureAll(src: Streaming.StreamingPcapSource) returns (s: PreflightStats)
    requires src.Valid() && src.packets == [] && !src.endedMidRecord
    modifies src, src.src
    ensures Measures(src.packets, s) && src.packets <= Packets(src.fmt, old(src.src.rest))
    ensures Streaming.Failed !in old(src.src.schedule) ==>
      && src.packets == Packets(src.fmt, old(src.src.rest))
      && var end := Ending(src.fmt, old(src.src.rest)); (s.endedMidRecord <==> end.PartialHeader? || end.PartialBody?)
  {
    hide Head, Packets, Ending, Tail, ParseFrame, EthertypeOf, Tagged, CutCount, CountsRight, Timed, Span, SmallestStep,
      Streaming.StreamingPcapSource.Valid;
    s := NO_STATS;
    var firstTs: Option<u64>, lastTs: u64, minDelta: u64 := None, 0, MAX_U64;
    ghost var all := src.src.rest;
    NothingMeasured(src.packets, s, minDelta);
    while true
      invariant src.Valid() && CountsRight(src.packets, s) && Timed(src.packets, firstTs, lastTs, minDelta)
      invariant src.packets + Packets(src.fmt, src.src.rest) == Packets(src.fmt, all)
      invariant Ending(src.fmt, src.src.rest) == Ending(src.fmt, all) && !src.endedMidRecord
      invariant Streaming.Failed !in old(src.src.schedule) ==> Streaming.Failed !in src.src.schedule
      decreases |src.src.rest|
    {
      ghost var rest, done := src.src.rest, src.packets;
      var next := src.NextFrame();
      if next.Err? || next.value.None? {
        if next != Err(Streaming.IoFailure) { ReadsNone(src.fmt, done, rest); }
        break;
      }
      ReadsOne(src.fmt, done, rest);
      var p := next.value.value;
      TimedNext(done, p, firstTs, lastTs, minDelta);
      s := CountOne(s, p, done);
      if firstTs == None {
        firstTs := Some(p.tsNs);
      } else if p.tsNs >= lastTs {
        var d := p.tsNs - lastTs;
        if d > 0 && d < minDelta {
          minDelta := d;
        }
      }
      lastTs := p.tsNs;
    }
    ghost var counted := s;
    src.CountersMean();
    s := s.(truncated := src.truncatedRecords, endedMidRecord := src.endedMidRecord,
            spanNs := if firstTs.Some? then SaturatingSub(lastTs, firstTs.value) else 0,
            minDeltaNs := if minDelta == MAX_U64 then None else Some(minDelta));
    SameCounters(src.packets, counted, s);
    TimesMean(src.packets, firstTs, lastTs, minDelta);
  }

  lemma NothingMeasured(packets: seq<Packet>, s: PreflightStats, minDelta: u64)
    requires packets == [] && s == NO_STATS && minDelta == MAX_U64
    ensures CountsRight(packets, s) && Timed(packets, None, 0, minDelta)
  {
  }

  lemma SameCounters(packets: seq<Packet>, s: PreflightStats, t: PreflightStats)
    requires CountsRight(packets, s)
    requires t == s.(truncated := t.truncated, endedMidRecord := t.endedMidRecord,
                     spanNs := t.spanNs, minDeltaNs := t.minDeltaNs)
    ensures CountsRight(packets, t)
  {
  }

  lemma TimesMean(packets: seq<Packet>, firstTs: Option<u64>, lastTs: u64, minDelta: u64)
    requires Timed(packets, firstTs, lastTs, minDelta)
    ensures Span(packets) == if firstTs.Some? then SaturatingSub(lastTs, firstTs.value) else 0
    ensures SmallestStep(packets, if minDelta == MAX_U64 then None else Some(minDelta))
  {
  }

  /** The statistics measure these packets, and the verdict follows from what was measured. */
  ghost predicate Judges(packets: seq<Packet>, s: PreflightStats, verdict: PreflightVerdict) {
    && Measures(packets, s) && !verdict.RejectedFormat?
    && (verdict == RejectedEmpty <==> packets == [])
    && (verdict == CoverageGap <==> 5 * Count(packets, Rejected) > |packets|)
  }

  /** Triage a capture. The verdict rejects what the reader rejects, with the pcapng hint exactly for that
      magic; otherwise it judges every packet of the capture, or those before a hard read failure. */
  method ComputePreflight(data: seq<byte>, schedule: seq<Streaming.Chunk>)
    returns (verdict: PreflightVerdict, s: PreflightStats)
    ensures Streaming.Failed !in schedule ==> (verdict.RejectedFormat? <==>
      |data| < GLOBAL_HEADER_LEN || FormatOf(RdU32(Fmt(false, false), data, 0)).Err?)
    ensures verdict.RejectedFormat? ==> s == NO_STATS
    ensures Streaming.Failed !in schedule && verdict.RejectedFormat? ==> (verdict.isPcapng <==>
      |data| >= GLOBAL_HEADER_LEN && FormatOf(RdU32(Fmt(false, false), data, 0)) == Err(IsPcapng))
    ensures !verdict.RejectedFormat? ==>
      && |data| >= GLOBAL_HEADER_LEN && FormatOf(RdU32(Fmt(false, false), data, 0)).Ok?
      && var fmt, body := FormatOf(RdU32(Fmt(false, false), data, 0)).value, data[GLOBAL_HEADER_LEN..];
      && (exists n :: 0 <= n <= |Packets(fmt, body)| && Judges(Packets(fmt, body)[..n], s, verdict))
      && (Streaming.Failed !in schedule ==>
           && Judges(Packets(fmt, body), s, verdict)
           && (s.endedMidRecord <==> Ending(fmt, body).PartialHeader? || Ending(fmt, body).PartialBody?))
  {
    hide FormatOf, RdU32, Packets, Ending, Judges;
    var src := new Streaming.ByteSource(data, schedule);
    var header := Streaming.Open(src);
    if header.Err? {
      return RejectedFormat(header.error.Format? && header.error.error.IsPcapng?), NO_STATS;
    }
    var source := header.value;
    s := MeasureAll(source);
    verdict := s.Verdict();
    ghost var packets := Packets(source.fmt, data[GLOBAL_HEADER_LEN..]);
    Judged(source.packets, s);
    assert packets[..|source.packets|] == source.packets;
  }

  lemma Judged(packets: seq<Packet>, s: PreflightStats)
    requires Measures(packets, s)
    ensures Judges(packets, s, s.Verdict())
  {
    hide Count, SmallestStep, CutCount;
    CountBounded(packets, Rejected);
  }

  lemma {:induction false} CountBounded(packets: seq<Packet>, f: Feature)
    ensures Count(packets, f) <= |packets|
  {
    if packets != [] {
      CountBounded(packets[..|packets| - 1], f);
    }
  }

  // ---------------------------------------------------------------- agreement with discovery

  /** On every capture, preflight and discovery agree on what is unclassified and what is malformed, and every
      frame is either classifiable or not; discovery tallies under a type no more frames than preflight saw. */
  lemma {:induction false} CoverageAgrees(packets: seq<Packet>)
    ensures var events := FiledAll(packets);
      && |events| == |packets| == Count(packets, Accepted) + Count(packets, Rejected)
      && Count(packets, Accepted) == SeenCount(events) && Count(packets, Rejected) == UnclassifiedCount(events)
      && Count(packets, Unreadable) == TallyOf(events, None)
      && forall et :: TallyOf(events, Some(et)) <= Count(packets, Typed(et))
  {
    if packets != [] {
      var k := |packets| - 1;
      CoverageAgrees(packets[..k]);
      assert packets == packets[..k] + [packets[k]];
      hide Count, SeenCount, UnclassifiedCount, TallyOf;
      CoverageAgreesNext(packets[..k], packets[k]);
    }
  }

  lemma CoverageAgreesNext(packets: seq<Packet>, p: Packet)
    ensures var more, events, events' := packets + [p], FiledAll(packets), FiledAll(packets + [p]);
      && SeenCount(events') - SeenCount(events) == Count(more, Accepted) - Count(packets, Accepted)
      && UnclassifiedCount(events') - UnclassifiedCount(events) == Count(more, Rejected) - Count(packets, Rejected)
      && Count(more, Accepted) + Count(more, Rejected) == Count(packets, Accepted) + Count(packets, Rejected) + 1
      && TallyOf(events', None) - TallyOf(events, None) == Count(more, Unreadable) - Count(packets, Unreadable)
      && forall et ::
           TallyOf(events', Some(et)) - TallyOf(events, Some(et)) <= Count(more, Typed(et)) - Count(packets, Typed(et))
  {
    FiledNext(packets, p);
    FiledIs(p);
    EthertypeAgrees(p.tsNs, p.bytes);
    hide ParseFrame, EventOf, Filed, TallyOf, Count;
    var events := FiledAll(packets);
    forall f { CountNext(packets, p, f); }
    forall et { TallyNext(events, Filed(p), et); }
    assert FiledAll(packets + [p])[..|events|] == events;
  }
}
