/** The discovery engine: every frame lands in exactly one stream or one tally. */
module Discovery {
  import opened Basics
  import opened Ingest
  import opened StreamProfiles
  import Wire
  import opened FrameMeaning

  // ---------------------------------------------------------------- re-derived offsets

  /** The PROFINET payload after the FrameID, found again from the raw frame. */
  function ProfinetIoPayload(buf: seq<byte>): seq<byte> {
    if |buf| < 14 then []
    else
      var et := ReadU16Be(buf, 12);
      if et == 0x8100 && |buf| < 18 then []
      else
        var payloadStart := (if et == 0x8100 then 18 else 14) + 2;
        if |buf| <= payloadStart then [] else buf[payloadStart..]
  }

  /** The UDP destination port, found again from the raw frame. */
  function UdpDstPort(buf: seq<byte>): Option<u16> {
    if |buf| < 14 then None
    else
      var outer := ReadU16Be(buf, 12);
      if outer == 0x8100 && |buf| < 18 then None
      else
        var off := if outer == 0x8100 then 18 else 14;
        var et := if outer == 0x8100 then ReadU16Be(buf, 16) else outer;
        if et != 0x0800 || |buf| < off + 20 then None
        else
          var ihl := IhlWords(buf, off) * 4;
          if |buf| < off + ihl + 4 then None else Some(ReadU16Be(buf, off + ihl + 2))
  }

  /** Discovery's own offsets agree with the parser on every accepted frame. */
  lemma OffsetsAgree(ts: u64, buf: seq<byte>)
    requires ParseFrame(ts, buf).Ok?
    ensures match ParseFrame(ts, buf).value.proto
      case ProfinetIrt(_, bit, raw) =>
        ProfinetIoPayload(buf) != [] && ProfinetIoPayload(buf)[0] == raw && bit == Bit(ProfinetIoPayload(buf)[0], 0)
      case FanucUdp(_, _, _) => UdpDstPort(buf) == Some(FANUC_POSE_PORT)
      case Ros2Udp(port, _) => UdpDstPort(buf) == Some(port) && port != FANUC_POSE_PORT
      case S7commArrival(port) => port == S7COMM_TCP_PORT
  {
  }

  // ---------------------------------------------------------------- events

  datatype Event =
    | Seen(key: StreamKey, arrival: Arrival)
    | Unclassified(ethertype: Option<u16>)

  /** Where an accepted frame is filed. */
  function EventOf(f: DecodedFrame): (e: Event)
    ensures e.Seen? && e.arrival.tsNs == f.tapTsNs
  {
    match f.proto
    case ProfinetIrt(id, _, _) => Seen(Profinet(id), Arrival(f.tapTsNs, Some(ProfinetIoPayload(f.raw))))
    case Ros2Udp(port, _) => Seen(UdpPort(port), Arrival(f.tapTsNs, None))
    case FanucUdp(_, _, _) =>
      Seen(UdpPort(if UdpDstPort(f.raw).Some? then UdpDstPort(f.raw).value else 0), Arrival(f.tapTsNs, None))
    case S7commArrival(port) => Seen(S7comm(port), Arrival(f.tapTsNs, None))
  }

  /** The stream an accepted frame belongs to, read from the wire: its FrameID, its UDP destination port, or S7comm. */
  function WireKey(b: seq<byte>): StreamKey
    requires Wire.Accepted(b)
  {
    if Wire.Cyclic(b) then Profinet(Wire.FrameId(b))
    else if Wire.Udp(b) then UdpPort(Wire.DstPort(b))
    else S7comm(102)
  }

  /** What its toggle analysis looks at: everything behind the FrameID, and nothing of other frames. */
  function WirePayload(b: seq<byte>): Option<seq<byte>>
    requires Wire.Accepted(b)
  {
    if Wire.Cyclic(b) then Some(Wire.IoImage(b)) else None
  }

  lemma PayloadFromWire(b: seq<byte>)
    requires Wire.Cyclic(b)
    ensures ProfinetIoPayload(b) == Wire.IoImage(b)
  {
  }

  lemma PortFromWire(b: seq<byte>)
    requires Wire.Udp(b)
    ensures UdpDstPort(b) == Some(Wire.DstPort(b))
  {
  }

  /** An accepted frame is filed under its key on the wire, with its own time and payload. */
  lemma EventFromWire(ts: u64, b: seq<byte>)
    requires ParseFrame(ts, b).Ok?
    ensures Wire.Accepted(b)
    ensures EventOf(ParseFrame(ts, b).value) == Seen(WireKey(b), Arrival(ts, WirePayload(b)))
  {
    AcceptedExactly(ts, b);
    hide ParseFrame, ProfinetIoPayload, UdpDstPort;
    if Wire.Cyclic(b) { PayloadFromWire(b); }
    if Wire.Udp(b) { PortFromWire(b); }
  }

  /** Two accepted frames share a stream exactly when they carry the same FrameID, the same UDP destination port,
      or are both S7comm. */
  lemma SameStreamIff(ts: u64, a: seq<byte>, ts': u64, b: seq<byte>)
    requires ParseFrame(ts, a).Ok? && ParseFrame(ts', b).Ok?
    ensures EventOf(ParseFrame(ts, a).value).key == EventOf(ParseFrame(ts', b).value).key <==>
      || (Wire.Cyclic(a) && Wire.Cyclic(b) && Wire.FrameId(a) == Wire.FrameId(b))
      || (Wire.Udp(a) && Wire.Udp(b) && Wire.DstPort(a) == Wire.DstPort(b))
      || (Wire.S7(a) && Wire.S7(b))
  {
    EventFromWire(ts, a);
    EventFromWire(ts', b);
    hide ParseFrame, EventOf;
  }

  function ArrivalsOf(events: seq<Event>, key: StreamKey): seq<Arrival> {
    if events == [] then []
    else
      var e := events[|events| - 1];
      ArrivalsOf(events[..|events| - 1], key) + if e.Seen? && e.key == key then [e.arrival] else []
  }

  /** How often frames of `ethertype` (`None`: no readable header) were left unclassified. */
  function TallyOf(events: seq<Event>, ethertype: Option<u16>): nat {
    if events == [] then 0
    else TallyOf(events[..|events| - 1], ethertype) + if events[|events| - 1] == Unclassified(ethertype) then 1 else 0
  }

  lemma ArrivalsNext(events: seq<Event>, e: Event, key: StreamKey)
    ensures ArrivalsOf(events + [e], key) ==
      ArrivalsOf(events, key) + if e.Seen? && e.key == key then [e.arrival] else []
  {
    assert (events + [e])[..|events|] == events;
  }

  lemma TallyNext(events: seq<Event>, e: Event, ethertype: Option<u16>)
    ensures TallyOf(events + [e], ethertype) ==
      TallyOf(events, ethertype) + if e == Unclassified(ethertype) then 1 else 0
  {
    assert (events + [e])[..|events|] == events;
  }

  // ---------------------------------------------------------------- conservation

  /** Arrivals summed over a set of streams. */
  ghost function StreamTotal(events: seq<Event>, keys: set<StreamKey>): nat {
    if keys == {} then 0
    else
      var k :| k in keys;
      |ArrivalsOf(events, k)| + StreamTotal(events, keys - {k})
  }

  /** Tallies summed over a set of EtherTypes. */
  ghost function TallyTotal(events: seq<Event>, types: set<Option<u16>>): nat {
    if types == {} then 0
    else
      var t :| t in types;
      TallyOf(events, t) + TallyTotal(events, types - {t})
  }

  lemma {:induction false} StreamTotalNext(events: seq<Event>, e: Event, keys: set<StreamKey>)
    ensures StreamTotal(events + [e], keys) == StreamTotal(events, keys) + if e.Seen? && e.key in keys then 1 else 0
  {
    if keys != {} {
      hide ArrivalsOf;
      var k :| k in keys &&
        StreamTotal(events + [e], keys) == |ArrivalsOf(events + [e], k)| + StreamTotal(events + [e], keys - {k});
      ArrivalsNext(events, e, k);
      StreamTotalNext(events, e, keys - {k});
      StreamTotalPicks(events, keys, k);
    }
  }

  /** The sum does not depend on which stream is taken out first. */
  lemma {:induction false} StreamTotalPicks(events: seq<Event>, keys: set<StreamKey>, k: StreamKey)
    requires k in keys
    ensures StreamTotal(events, keys) == |ArrivalsOf(events, k)| + StreamTotal(events, keys - {k})
  {
    hide ArrivalsOf;
    var p :| p in keys && StreamTotal(events, keys) == |ArrivalsOf(events, p)| + StreamTotal(events, keys - {p});
    if p != k {
      StreamTotalPicks(events, keys - {p}, k);
      StreamTotalPicks(events, keys - {k}, p);
      assert keys - {p} - {k} == keys - {k} - {p};
    }
  }

  lemma {:induction false} TallyTotalPicks(events: seq<Event>, types: set<Option<u16>>, t: Option<u16>)
    requires t in types
    ensures TallyTotal(events, types) == TallyOf(events, t) + TallyTotal(events, types - {t})
  {
    hide TallyOf;
    var p :| p in types && TallyTotal(events, types) == TallyOf(events, p) + TallyTotal(events, types - {p});
    if p != t {
      TallyTotalPicks(events, types - {p}, t);
      TallyTotalPicks(events, types - {t}, p);
      assert types - {p} - {t} == types - {t} - {p};
    }
  }

  lemma {:induction false} TallyTotalNext(events: seq<Event>, e: Event, types: set<Option<u16>>)
    ensures TallyTotal(events + [e], types) ==
      TallyTotal(events, types) + if e.Unclassified? && e.ethertype in types then 1 else 0
  {
    if types != {} {
      hide TallyOf;
      var t :| t in types &&
        TallyTotal(events + [e], types) == TallyOf(events + [e], t) + TallyTotal(events + [e], types - {t});
      TallyNext(events, e, t);
      TallyTotalNext(events, e, types - {t});
      TallyTotalPicks(events, types, t);
    }
  }

  lemma {:induction false} EmptyTotals(keys: set<StreamKey>, types: set<Option<u16>>)
    ensures StreamTotal([], keys) == 0 && TallyTotal([], types) == 0
    decreases |keys| + |types|
  {
    if keys != {} {
      var k :| k in keys;
      StreamTotalPicks([], keys, k);
      EmptyTotals(keys - {k}, types);
    } else if types != {} {
      var t :| t in types;
      TallyTotalPicks([], types, t);
      EmptyTotals(keys, types - {t});
    }
  }

  function SeenCount(events: seq<Event>): nat {
    if events == [] then 0 else SeenCount(events[..|events| - 1]) + if events[|events| - 1].Seen? then 1 else 0
  }

  function UnclassifiedCount(events: seq<Event>): nat {
    if events == [] then 0
    else UnclassifiedCount(events[..|events| - 1]) + if events[|events| - 1].Unclassified? then 1 else 0
  }

  /** Every frame is counted once: by its stream or by its tally, and never by both. */
  lemma {:induction false} NothingIsLost(events: seq<Event>, keys: set<StreamKey>, types: set<Option<u16>>)
    requires forall i :: 0 <= i < |events| ==>
      if events[i].Seen? then events[i].key in keys else events[i].ethertype in types
    ensures StreamTotal(events, keys) == SeenCount(events)
    ensures TallyTotal(events, types) == UnclassifiedCount(events)
    ensures |events| == SeenCount(events) + UnclassifiedCount(events)
  {
    if events == [] {
      EmptyTotals(keys, types);
    } else {
      hide StreamTotal, TallyTotal;
      var k := |events| - 1;
      assert events == events[..k] + [events[k]];
      NothingIsLost(events[..k], keys, types);
      StreamTotalNext(events[..k], events[k], keys);
      TallyTotalNext(events[..k], events[k], types);
    }
  }

  lemma {:induction false} FiledUnderSomething(events: seq<Event>, i: nat)
    requires i < |events|
    ensures events[i].Seen? ==> ArrivalsOf(events, events[i].key) != []
    ensures events[i].Unclassified? ==> TallyOf(events, events[i].ethertype) > 0
  {
    if i < |events| - 1 {
      FiledUnderSomething(events[..|events| - 1], i);
    }
  }

  // ---------------------------------------------------------------- the engine

  /** The frame counters are what the events say they are. */
  ghost predicate TalliesOk(events: seq<Event>, totalFrames: nat, malformed: nat, byEthertype: map<u16, nat>) {
    && totalFrames == |events| && malformed == TallyOf(events, None)
    && (forall et :: et in byEthertype <==> TallyOf(events, Some(et)) > 0)
    && (forall et :: et in byEthertype ==> byEthertype[et] == TallyOf(events, Some(et)))
  }

  /** Every stream seen has a log, and it is that stream's arrivals. */
  ghost predicate LogsOk(events: seq<Event>, logs: map<StreamKey, seq<Arrival>>) {
    && (forall k :: k in logs <==> ArrivalsOf(events, k) != [])
    && (forall k :: k in logs ==> logs[k] == ArrivalsOf(events, k))
  }

  lemma LogsNext(events: seq<Event>, logs: map<StreamKey, seq<Arrival>>, key: StreamKey, a: Arrival)
    requires LogsOk(events, logs)
    ensures LogsOk(events + [Seen(key, a)], logs[key := (if key in logs then logs[key] else []) + [a]])
  {
    hide ArrivalsOf;
    forall k { ArrivalsNext(events, Seen(key, a), k); }
  }

  lemma TalliesSeen(events: seq<Event>, totalFrames: nat, malformed: nat, byEthertype: map<u16, nat>, e: Event)
    requires TalliesOk(events, totalFrames, malformed, byEthertype) && e.Seen?
    ensures TalliesOk(events + [e], totalFrames + 1, malformed, byEthertype)
  {
    hide TallyOf;
    forall et { TallyNext(events, e, et); }
  }

  lemma FrameFromWire(f: DecodedFrame)
    ensures ParseFrame(f.tapTsNs, f.raw) == Ok(f) ==>
      Wire.Accepted(f.raw) && EventOf(f) == Seen(WireKey(f.raw), Arrival(f.tapTsNs, WirePayload(f.raw)))
  {
    if ParseFrame(f.tapTsNs, f.raw) == Ok(f) { EventFromWire(f.tapTsNs, f.raw); }
  }

  class DiscoveryEngine {
    var streams: map<StreamKey, StreamProfile>
    var byEthertype: map<u16, nat>
    var malformed: nat
    var totalFrames: nat
    /** Every frame fed so far, as it was filed. */
    ghost var events: seq<Event>
    /** The streams and their histograms. */
    ghost var Repr: set<object>

    /** Streams are filed under their own keys and share no state. */
    ghost predicate StreamsOk()
      reads this`streams, this`Repr, Repr
    {
      && (forall k :: k in streams ==>
        streams[k] in Repr && streams[k].interarrival in Repr && streams[k].key == k && streams[k].Valid())
      && (forall k, k' :: k in streams && k' in streams && k != k' ==>
        streams[k].interarrival != streams[k'].interarrival)
    }

    ghost function Logs(): map<StreamKey, seq<Arrival>>
      requires StreamsOk()
      reads this`streams, this`Repr, Repr
    {
      map k | k in streams :: streams[k].log
    }

    /** The accumulators are functions of the events. */
    ghost predicate Valid()
      reads this, Repr
    {
      && this !in Repr && StreamsOk()
      && TalliesOk(events, totalFrames, malformed, byEthertype) && LogsOk(events, Logs())
    }

    constructor ()
      ensures Valid() && events == [] && Repr == {}
    {
      streams, byEthertype := map[], map[];
      malformed, totalFrames := 0, 0;
      events, Repr := [], {};
    }

    method Observe(f: DecodedFrame)
      requires Valid()
      modifies this, Repr
      ensures Valid() && events == old(events) + [EventOf(f)] && fresh(Repr - old(Repr))
      ensures ParseFrame(f.tapTsNs, f.raw) == Ok(f) ==>
        && Wire.Accepted(f.raw)
        && events == old(events) + [Seen(WireKey(f.raw), Arrival(f.tapTsNs, WirePayload(f.raw)))]
    {
      FrameFromWire(f);
      hide ParseFrame, WireKey, WirePayload, Wire.Accepted, ProfinetIoPayload, UdpDstPort, Valid;
      match f.proto
      case ProfinetIrt(id, _, _) =>
        ObserveStream(Profinet(id), f.tapTsNs, Some(ProfinetIoPayload(f.raw)));
      case Ros2Udp(port, _) =>
        ObserveStream(UdpPort(port), f.tapTsNs, None);
      case FanucUdp(_, _, _) =>
        var port := UdpDstPort(f.raw);
        ObserveStream(UdpPort(if port.Some? then port.value else 0), f.tapTsNs, None);
      case S7commArrival(port) =>
        ObserveStream(S7comm(port), f.tapTsNs, None);
    }

    /** `entry(key).or_insert_with(..)`: a stream not seen before starts out empty. */
    method Entry(key: StreamKey) returns (p: StreamProfile)
      requires StreamsOk()
      modifies this`streams, this`Repr
      ensures StreamsOk() && key in streams && p == streams[key] && p.key == key && p in Repr && p.interarrival in Repr
      ensures Logs() == if key in old(Logs()) then old(Logs()) else old(Logs())[key := []]
      ensures old(Repr) <= Repr && fresh(Repr - old(Repr))
    {
      hide StreamProfile.Valid;
      if key !in streams {
        var fresh' := new StreamProfile(key);
        streams := streams[key := fresh'];
        Repr := Repr + {fresh', fresh'.interarrival};
      }
      p := streams[key];
    }

    /** One more arrival for a stream changes no other stream's log. */
    method Deliver(p: StreamProfile, tsNs: u64, payload: Option<seq<byte>>)
      requires StreamsOk() && p.key in streams && streams[p.key] == p
      modifies p, p.interarrival
      ensures StreamsOk() && Logs() == old(Logs())[p.key := old(Logs())[p.key] + [Arrival(tsNs, payload)]]
    {
      hide StreamProfile.Valid;
      p.Observe(tsNs, payload);
    }

    /** `total_frames += 1`, then the stream's own accumulators. */
    method ObserveStream(key: StreamKey, tsNs: u64, payload: Option<seq<byte>>)
      requires Valid()
      modifies this, Repr
      ensures Valid() && events == old(events) + [Seen(key, Arrival(tsNs, payload))] && fresh(Repr - old(Repr))
    {
      hide TalliesOk, LogsOk, StreamsOk, Logs;
      ghost var e := Seen(key, Arrival(tsNs, payload));
      TalliesSeen(events, totalFrames, malformed, byEthertype, e);
      LogsNext(events, Logs(), key, e.arrival);
      totalFrames := totalFrames + 1;
      var p := Entry(key);
      Deliver(p, tsNs, payload);
      assert Logs() == old(Logs())[key := (if key in old(Logs()) then old(Logs())[key] else []) + [e.arrival]];
      events := events + [e];
    }

    method ObserveUnclassified(ethertype: Option<u16>)
      requires Valid()
      modifies this
      ensures Valid() && events == old(events) + [Unclassified(ethertype)] && Repr == old(Repr)
    {
      hide ArrivalsOf, TallyOf, StreamProfile.Valid;
      ghost var e := Unclassified(ethertype);
      forall k { ArrivalsNext(events, e, k); }
      forall et { TallyNext(events, e, et); }
      totalFrames := totalFrames + 1;
      match ethertype {
        case Some(et) => byEthertype := byEthertype[et := (if et in byEthertype then byEthertype[et] else 0) + 1];
        case None => malformed := malformed + 1;
      }
      events := events + [e];
    }
  }
}
