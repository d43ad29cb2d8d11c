/** The eager and the streaming reader, run side by side over the same bytes. */
module ReaderAgreement {
  import opened Basics
  import opened PcapFormat
  import Replay
  import Streaming

  /** The two readers' verdicts on a capture they have both read to the end. */
  ghost predicate SameVerdict(eager: Result<Option<Packet>, Replay.PcapError>,
                              streaming: Result<Option<Packet>, Streaming.StreamPcapError>, midRecord: bool) {
    match eager
    case Ok(None) => streaming == Ok(None) && !midRecord
    case Err(TruncatedRecord(_)) => streaming == Ok(None) && midRecord
    case Err(TruncatedData(_, _)) => streaming == Ok(None) && midRecord
    case Err(ImplausibleLength(n)) => streaming == Err(Streaming.ImplausibleLength(n)) && !midRecord
    case _ => false
  }

  /** Read an accepted capture to its end with both readers, under any schedule of short reads and
      interruptions: same packets, same counters, matching verdicts. */
  method DrainBoth(e: Replay.PcapReplaySource, s: Streaming.StreamingPcapSource)
    returns (eagerEnd: Result<Option<Packet>, Replay.PcapError>,
             streamEnd: Result<Option<Packet>, Streaming.StreamPcapError>)
    requires e.Valid() && s.Valid() && e.fmt == s.fmt && e.Rest() == s.src.rest
    requires e.packets == [] && s.packets == [] && !s.endedMidRecord && Streaming.Failed !in s.src.schedule
    modifies e, s, s.src
    ensures e.Valid() && s.Valid()
    ensures e.packets == s.packets == Packets(e.fmt, old(e.Rest()))
    ensures e.recordsRead == s.recordsRead == |e.packets|
    ensures e.truncatedRecords == s.truncatedRecords == CutCount(e.packets)
    ensures SameVerdict(eagerEnd, streamEnd, s.endedMidRecord)
    ensures s.endedMidRecord <==>
      Ending(e.fmt, old(e.Rest())).PartialHeader? || Ending(e.fmt, old(e.Rest())).PartialBody?
  {
    hide Head, Packets, Ending, CutCount, Tail;
    ghost var all := e.Rest();
    while true
      invariant e.Valid() && s.Valid() && e.Rest() == s.src.rest && e.packets == s.packets
      invariant e.packets + Packets(e.fmt, e.Rest()) == Packets(e.fmt, all)
      invariant Ending(e.fmt, e.Rest()) == Ending(e.fmt, all)
      invariant !s.endedMidRecord && Streaming.Failed !in s.src.schedule
      decreases |e.Rest()|
    {
      ghost var rest, done := e.Rest(), e.packets;
      eagerEnd := e.NextFrame();
      streamEnd := s.NextFrame();
      if !(eagerEnd.Ok? && eagerEnd.value.Some?) {
        ReadsNone(e.fmt, done, rest);
        return;
      }
      ReadsOne(e.fmt, done, rest);
    }
  }

  /** The whole way: both readers accept or reject the header together, then agree on the rest. */
  method ReplayBoth(data: seq<byte>, schedule: seq<Streaming.Chunk>)
    returns (eager: Result<Replay.PcapReplaySource, Replay.PcapError>,
             streaming: Result<Streaming.StreamingPcapSource, Streaming.StreamPcapError>)
    requires Streaming.Failed !in schedule
    ensures eager.Ok? <==> streaming.Ok?
    ensures |data| < GLOBAL_HEADER_LEN ==>
      eager == Err(Replay.TruncatedRecord(0)) && streaming == Err(Streaming.IoFailure)
    ensures forall x :: eager == Err(Replay.Format(x)) <==> streaming == Err(Streaming.Format(x))
    ensures eager.Ok? ==>
      && |data| >= GLOBAL_HEADER_LEN
      && FormatOf(RdU32(Fmt(false, false), data, 0)) == Ok(eager.value.fmt)
      && eager.value.packets == streaming.value.packets == Packets(eager.value.fmt, data[GLOBAL_HEADER_LEN..])
      && eager.value.recordsRead == streaming.value.recordsRead
      && eager.value.truncatedRecords == streaming.value.truncatedRecords
  {
    hide FormatOf, RdU32, Packets, Head, Ending, CutCount, Tail;
    eager := Replay.FromBytes(data);
    var src := new Streaming.ByteSource(data, schedule);
    streaming := Streaming.Open(src);
    if eager.Ok? && streaming.Ok? {
      var e, s := eager.value, streaming.value;
      var eagerEnd, streamEnd := DrainBoth(e, s);
    }
  }
}
