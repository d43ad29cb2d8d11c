/** The production run: read, parse, observe, and store one evidence row per trip. */
module ManifestRun {
  import opened Basics
  import opened Ingest
  import opened CausalTypes
  import opened History
  import opened BackwardWalk
  import opened Ranking
  import opened AttributionTheorems
  import opened Observer
  import opened PcapFormat
  import Streaming
  import opened Trace
  import Wire
  import opened FrameMeaning
  import Storage

  /** "APPL-REPLAY". */
  const APPLIANCE: Bytes := [65, 80, 80, 76, 45, 82, 69, 80, 76, 65, 89]
  /** "SF-FROM-MANIFEST". */
  const SAFETY_FUNCTION: Bytes := [83, 70, 45, 70, 82, 79, 77, 45, 77, 65, 78, 73, 70, 69, 83, 84]
  const RESPONSE_BUDGET_NS: u64 := 50_000_000

  type Choice = Option<(NodeId, Option<bool>)>

  /** `choices[i]` is a classification the node table allows for packet `i`; dropped packets have none. */
  ghost predicate Allowed(m: DependencyManifest, packets: seq<Packet>, choices: seq<Choice>)
    requires m.Valid()
  {
    && |choices| == |packets|
    && forall i :: 0 <= i < |packets| ==>
         match ParseFrame(packets[i].tsNs, packets[i].bytes)
         case Ok(f) => m.MayClassify(f, choices[i])
         case Err(_) => choices[i] == None
  }

  /** The transitions a run records. */
  function HistoryOf(packets: seq<Packet>, choices: seq<Choice>): History
    requires |choices| == |packets|
  {
    if packets == [] then []
    else
      var k := |packets| - 1;
      var h := HistoryOf(packets[..k], choices[..k]);
      match choices[k]
      case None => h
      case Some((node, level)) => h + [StateTransition(|h|, node, packets[k].tsNs, level)]
  }

  /** The evidence row of a trip recorded as the last transition of `h`. */
  function RowOf(edges: seq<DependencyEdge>, cap: nat, h: History): TraceRow
    requires h != []
  {
    var analysis := Attribution(edges, Newest(h, cap), h[|h| - 1]);
    FromTrace(Trace.Build(APPLIANCE, analysis, SAFETY_FUNCTION, RESPONSE_BUDGET_NS))
  }

  /** One row for each trip of the run, in order. */
  function TripRows(edges: seq<DependencyEdge>, tripNode: NodeId, cap: nat, h: History): seq<TraceRow> {
    if h == [] then []
    else
      TripRows(edges, tripNode, cap, h[..|h| - 1])
      + if TripAt(h, |h| - 1, tripNode) then [RowOf(edges, cap, h)] else []
  }

  lemma TripRowsNext(edges: seq<DependencyEdge>, tripNode: NodeId, cap: nat, h: History, t: StateTransition)
    ensures TripRows(edges, tripNode, cap, h + [t]) ==
      TripRows(edges, tripNode, cap, h) + if IsTrip(h, t, tripNode) then [RowOf(edges, cap, h + [t])] else []
    ensures TripCount(h + [t], tripNode) == TripCount(h, tripNode) + if IsTrip(h, t, tripNode) then 1 else 0
  {
    hide RowOf, IsTrip;
    assert (h + [t])[..|h|] == h;
  }

  lemma HistoryNext(packets: seq<Packet>, choices: seq<Choice>, p: Packet, c: Choice)
    requires |choices| == |packets|
    ensures var h := HistoryOf(packets, choices);
      HistoryOf(packets + [p], choices + [c]) == match c
        case None => h
        case Some((node, level)) => h + [StateTransition(|h|, node, p.tsNs, level)]
  {
    assert (packets + [p])[..|packets|] == packets && (choices + [c])[..|choices|] == choices;
  }

  lemma AllowedNext(m: DependencyManifest, packets: seq<Packet>, choices: seq<Choice>, p: Packet, c: Choice)
    requires m.Valid() && Allowed(m, packets, choices)
    requires match ParseFrame(p.tsNs, p.bytes) case Ok(f) => m.MayClassify(f, c) case Err(_) => c == None
    ensures Allowed(m, packets + [p], choices + [c])
  {
    hide ParseFrame, DependencyManifest.MayClassify;
  }

  // ---------------------------------------------------------------- what a row tells

  /** The row is the evidence of the trip at `i`: its time and identity, these findings of a walk over the ring as
      it was then, entry by entry, and the conclusions drawn from the first of them. */
  ghost predicate TellsOf(edges: seq<DependencyEdge>, cap: nat, h: History, i: nat, row: TraceRow,
                          ranked: seq<CandidateCatalyst>)
    requires i < |h|
  {
    var trip, e := h[i], row.evidence;
    && Findings(edges, Newest(h[..i + 1], cap), trip, ranked)
    && row.tripTsNs == e.tripTsNs == trip.tsNs
    && row.traceId == e.traceId == TraceId(APPLIANCE, trip.tsNs, trip.seqNo)
    && row.applianceId == e.applianceId == APPLIANCE && row.safetyFnId == e.safetyFunctionId == SAFETY_FUNCTION
    && |e.rankedCatalysts| == |ranked|
    && (forall k :: 0 <= k < |ranked| ==> Copies(e.rankedCatalysts[k], ranked[k]))
    && e.rootCatalyst == (if ranked == [] then None else Some(e.rankedCatalysts[0]))
    && row.rootOverrun == (if ranked == [] then None
                           else Some((ranked[0].observedDtNs as int - ranked[0].edge.wcetNs, ranked[0].edge.wcetNs)))
    && (row.attributed <==> ranked != [])
    && e.finding == (if ranked == [] then UnattributedTrip else AttributableNuisanceTrip)
    && e.configuredBudgetNs == 50_000_000
    && e.observedResponseTimeNs as int == (if ranked == [] then 0 else trip.tsNs - ranked[0].trigger.tsNs)
    && (e.responseWithinBudget <==> ranked != [] && trip.tsNs - ranked[0].trigger.tsNs <= 50_000_000)
  }

  /** The entry of the record names the candidate's edge, gap, budget, trigger and effect. */
  ghost predicate Copies(t: TraceCatalyst, c: CandidateCatalyst) {
    && t.edgeFrom == c.edge.from && t.edgeTo == c.edge.to
    && t.observedDtNs == c.observedDtNs && t.wcetNs == c.edge.wcetNs
    && t.triggerSeq == c.trigger.seqNo && t.effectSeq == c.effect.seqNo
  }

  ghost predicate Tells(edges: seq<DependencyEdge>, cap: nat, h: History, i: nat, row: TraceRow)
    requires i < |h|
  {
    exists ranked :: TellsOf(edges, cap, h, i, row, ranked)
  }

  lemma RowTells(edges: seq<DependencyEdge>, cap: nat, h: History)
    requires h != []
    ensures Tells(edges, cap, h, |h| - 1, RowOf(edges, cap, h))
  {
    hide Attribution, Findings, TraceId, Newest, Trace.Build, FromTrace, Copies;
    var view, trip := Newest(h, cap), h[|h| - 1];
    var analysis := Attribution(edges, view, trip);
    AttributionFindings(edges, view, trip);
    OwnBudgets(edges, view, trip, analysis.rankedCatalysts);
    BuiltRow(analysis);
    assert h[..|h| - 1 + 1] == h;
    assert TellsOf(edges, cap, h, |h| - 1, RowOf(edges, cap, h), analysis.rankedCatalysts);
  }

  lemma BuiltRow(analysis: TripAnalysis)
    requires forall c :: c in analysis.rankedCatalysts ==> c.wcetNs == c.edge.wcetNs
    ensures var row := FromTrace(Trace.Build(APPLIANCE, analysis, SAFETY_FUNCTION, RESPONSE_BUDGET_NS));
      var trip, e, ranked := analysis.tripEvent, row.evidence, analysis.rankedCatalysts;
      && row.tripTsNs == e.tripTsNs == trip.tsNs
      && row.traceId == e.traceId == TraceId(APPLIANCE, trip.tsNs, trip.seqNo)
      && row.applianceId == e.applianceId == APPLIANCE && row.safetyFnId == e.safetyFunctionId == SAFETY_FUNCTION
      && |e.rankedCatalysts| == |ranked|
      && (forall k :: 0 <= k < |ranked| ==> Copies(e.rankedCatalysts[k], ranked[k]))
      && e.rootCatalyst == (if ranked == [] then None else Some(e.rankedCatalysts[0]))
      && row.rootOverrun == (if ranked == [] then None
                             else Some((ranked[0].observedDtNs as int - ranked[0].edge.wcetNs, ranked[0].edge.wcetNs)))
      && (row.attributed <==> ranked != [])
      && e.finding == (if ranked == [] then UnattributedTrip else AttributableNuisanceTrip)
      && e.configuredBudgetNs == 50_000_000
      && e.observedResponseTimeNs ==
           (if ranked == [] then 0 else SaturatingSub(trip.tsNs, ranked[0].trigger.tsNs))
      && (e.responseWithinBudget <==> ranked != [] && e.observedResponseTimeNs <= 50_000_000)
  {
    hide TraceId;
    var ranked := analysis.rankedCatalysts;
    assert forall k :: 0 <= k < |ranked| ==> ranked[k] in ranked;
  }

  /** Ranked candidates carry their edge's budget, and their triggers precede the trip. */
  lemma OwnBudgets(edges: seq<DependencyEdge>, view: seq<StateTransition>, trip: StateTransition,
                   ranked: seq<CandidateCatalyst>)
    requires Findings(edges, view, trip, ranked)
    ensures forall c :: c in ranked ==> c.wcetNs == c.edge.wcetNs && c.trigger.tsNs < trip.tsNs
  {
    hide WalkFromTrip;
    forall c | c in ranked ensures c.wcetNs == c.edge.wcetNs && c.trigger.tsNs < trip.tsNs {
      assert Accuses(edges, view, trip, c);
    }
  }

  lemma TellsOfPrefix(edges: seq<DependencyEdge>, cap: nat, h: History, k: nat, i: nat, row: TraceRow, tripNode: NodeId)
    requires i < k <= |h|
    ensures Tells(edges, cap, h[..k], i, row) <==> Tells(edges, cap, h, i, row)
    ensures TripAt(h[..k], i, tripNode) <==> TripAt(h, i, tripNode)
  {
    assert h[..k][..i + 1] == h[..i + 1] && h[..k][..i] == h[..i];
    hide Findings, TraceId, Newest, IsTrip, Copies;
    forall ranked ensures TellsOf(edges, cap, h[..k], i, row, ranked) <==> TellsOf(edges, cap, h, i, row, ranked) {}
  }

  /** Every row tells of some trip, and every trip is told of. */
  ghost predicate AllTell(edges: seq<DependencyEdge>, tripNode: NodeId, cap: nat, h: History, rows: seq<TraceRow>) {
    && (forall row :: row in rows ==>
          exists i :: 0 <= i < |h| && TripAt(h, i, tripNode) && Tells(edges, cap, h, i, row))
    && (forall i :: 0 <= i < |h| && TripAt(h, i, tripNode) ==>
          exists row :: row in rows && Tells(edges, cap, h, i, row))
  }

  lemma {:induction false} TripRowsTell(edges: seq<DependencyEdge>, tripNode: NodeId, cap: nat, h: History)
    ensures AllTell(edges, tripNode, cap, h, TripRows(edges, tripNode, cap, h))
  {
    hide Tells, RowOf, TripAt;
    if h != [] {
      var k := |h| - 1;
      var init, before := h[..k], TripRows(edges, tripNode, cap, h[..k]);
      var rows := TripRows(edges, tripNode, cap, h);
      TripRowsTell(edges, tripNode, cap, init);
      RowTells(edges, cap, h);
      forall row | row in rows
        ensures exists i :: 0 <= i < |h| && TripAt(h, i, tripNode) && Tells(edges, cap, h, i, row)
      {
        if row in before {
          var i :| 0 <= i < |init| && TripAt(init, i, tripNode) && Tells(edges, cap, init, i, row);
          TellsOfPrefix(edges, cap, h, k, i, row, tripNode);
        } else {
          assert TripAt(h, k, tripNode) && row == RowOf(edges, cap, h);
        }
      }
      forall i | 0 <= i < |h| && TripAt(h, i, tripNode)
        ensures exists row :: row in rows && Tells(edges, cap, h, i, row)
      {
        if i < k {
          var some := RowOf(edges, cap, h);
          TellsOfPrefix(edges, cap, h, k, i, some, tripNode);
          var row :| row in before && Tells(edges, cap, init, i, row);
          TellsOfPrefix(edges, cap, h, k, i, row, tripNode);
          assert row in rows;
        } else {
          assert RowOf(edges, cap, h) in rows;
        }
      }
    }
  }

  lemma SameRowsTell(edges: seq<DependencyEdge>, tripNode: NodeId, cap: nat, h: History, rows: seq<TraceRow>)
    requires multiset(rows) == multiset(TripRows(edges, tripNode, cap, h))
    ensures AllTell(edges, tripNode, cap, h, rows)
  {
    hide Tells, TripAt, TripRows;
    TripRowsTell(edges, tripNode, cap, h);
    var all := TripRows(edges, tripNode, cap, h);
    forall row ensures row in rows <==> row in all {
      assert row in rows <==> row in multiset(rows);
      assert row in all <==> row in multiset(all);
    }
  }

  // ---------------------------------------------------------------- what the wire says

  /** The bit of one FrameID's status byte, frame by frame through a capture. */
  function StatusLevels(packets: seq<Packet>, frameId: u16, bit: nat): seq<bool> {
    if packets == [] then []
    else
      var b := packets[|packets| - 1].bytes;
      StatusLevels(packets[..|packets| - 1], frameId, bit)
      + if Wire.Cyclic(b) && Wire.FrameId(b) == frameId then [Wire.BitSet(Wire.StatusByte(b), bit)] else []
  }

  /** In a table without overlaps, the trips are the steps from 1 to 0 of the trip node's own bit. */
  ghost predicate TripsOnWire(m: DependencyManifest, packets: seq<Packet>, trips: nat) {
    Unambiguous(m.nodes) && m.tripNode in m.nodes && m.nodes[m.tripNode].ProfinetFrame? ==>
      var matcher := m.nodes[m.tripNode];
      trips == FallingEdges(StatusLevels(packets, matcher.frameId, matcher.bitIndex))
  }

  function AcceptedCount(packets: seq<Packet>): nat {
    if packets == [] then 0
    else AcceptedCount(packets[..|packets| - 1]) + if Wire.Accepted(packets[|packets| - 1].bytes) then 1 else 0
  }

  lemma AcceptedNext(packets: seq<Packet>, p: Packet)
    ensures AcceptedCount(packets + [p]) == AcceptedCount(packets) + if ParseFrame(p.tsNs, p.bytes).Ok? then 1 else 0
  {
    AcceptedExactly(p.tsNs, p.bytes);
    hide ParseFrame, Wire.Accepted;
    assert (packets + [p])[..|packets|] == packets;
  }

  /** One packet's report of the trip node, if it is one. */
  lemma LevelOfPacket(m: DependencyManifest, p: Packet, c: Choice, frameId: u16, bit: byte)
    requires m.Valid() && Unambiguous(m.nodes) && m.tripNode in m.nodes
    requires m.nodes[m.tripNode] == ProfinetFrame(frameId, bit)
    requires match ParseFrame(p.tsNs, p.bytes) case Ok(f) => m.MayClassify(f, c) case Err(_) => c == None
    ensures if Wire.Cyclic(p.bytes) && Wire.FrameId(p.bytes) == frameId
      then c == Some((m.tripNode, Some(Wire.BitSet(Wire.StatusByte(p.bytes), bit))))
      else c == None || c.value.0 != m.tripNode
  {
    AcceptedExactly(p.tsNs, p.bytes);
    if ParseFrame(p.tsNs, p.bytes).Ok? {
      ClassifiedFromWire(m, p.tsNs, p.bytes, c);
      MatchesFromWire(m.nodes[m.tripNode], p.tsNs, p.bytes);
      hide ParseFrame, NodeMatcher.Matches, Wire.BitSet, Unambiguous;
    }
  }

  /** In a table without overlaps, the levels the trip node reports are its bit of its frames' status bytes. */
  lemma {:induction false} LevelsFromWire(m: DependencyManifest, packets: seq<Packet>, choices: seq<Choice>,
                                          frameId: u16, bit: byte)
    requires m.Valid() && Unambiguous(m.nodes) && m.tripNode in m.nodes
    requires m.nodes[m.tripNode] == ProfinetFrame(frameId, bit) && Allowed(m, packets, choices)
    ensures LevelsOf(HistoryOf(packets, choices), m.tripNode) == StatusLevels(packets, frameId, bit)
  {
    if packets != [] {
      var k := |packets| - 1;
      LevelsFromWire(m, packets[..k], choices[..k], frameId, bit);
      LevelOfPacket(m, packets[k], choices[k], frameId, bit);
      hide ParseFrame, DependencyManifest.MayClassify, DependencyManifest.Valid, Unambiguous, Wire.Cyclic, Wire.BitSet;
      var h := HistoryOf(packets[..k], choices[..k]);
      if choices[k].Some? {
        var (node, level) := choices[k].value;
        LevelsNext(h, StateTransition(|h|, node, packets[k].tsNs, level), m.tripNode);
      }
    }
  }

  lemma LevelsNext(h: History, t: StateTransition, node: NodeId)
    ensures LevelsOf(h + [t], node) ==
      LevelsOf(h, node) + if t.node == node && t.interlock.Some? then [t.interlock.value] else []
  {
    assert (h + [t])[..|h|] == h;
  }

  // ---------------------------------------------------------------- no key is used twice

  /** The row's identifier carries a sequence number below `bound`. */
  ghost predicate IdBelow(row: TraceRow, bound: nat) {
    exists s: nat :: s < bound && row.traceId == TraceId(APPLIANCE, row.tripTsNs, s)
  }

  ghost predicate IdsBelow(rows: seq<TraceRow>, bound: nat) {
    forall i :: 0 <= i < |rows| ==> IdBelow(rows[i], bound)
  }

  lemma RowIdentity(edges: seq<DependencyEdge>, cap: nat, h: History)
    requires h != []
    ensures var r := RowOf(edges, cap, h);
      r.tripTsNs == h[|h| - 1].tsNs && r.traceId == TraceId(APPLIANCE, h[|h| - 1].tsNs, h[|h| - 1].seqNo)
  {
    hide TraceId, Newest, Rank;
  }

  lemma RowIs(edges: seq<DependencyEdge>, cap: nat, h: History, t: StateTransition)
    ensures var analysis := Attribution(edges, Newest(h + [t], cap), t);
      var trace := Trace.Build(APPLIANCE, analysis, SAFETY_FUNCTION, RESPONSE_BUDGET_NS);
      RowOf(edges, cap, h + [t]) == FromTrace(trace) && (FromTrace(trace).attributed <==> trace.rootCatalyst.Some?)
  {
    hide Attribution, Newest, TraceId;
  }

  /** A trip numbered `bound` cannot collide with rows numbered below it. */
  lemma FreshKey(rows: seq<TraceRow>, bound: nat, row: TraceRow)
    requires IdsBelow(rows, bound) && row.traceId == TraceId(APPLIANCE, row.tripTsNs, bound)
    ensures !Storage.HasKey(rows, Storage.KeyOf(row))
  {
    hide TraceId;
    forall i | 0 <= i < |rows| ensures Storage.KeyOf(rows[i]) != Storage.KeyOf(row) {
      assert IdBelow(rows[i], bound);
      var s: nat :| s < bound && rows[i].traceId == TraceId(APPLIANCE, rows[i].tripTsNs, s);
      if Storage.KeyOf(rows[i]) == Storage.KeyOf(row) {
        TraceIdInjective(APPLIANCE, rows[i].tripTsNs, s, row.tripTsNs, bound);
      }
    }
  }

  lemma IdsBelowInsert(rows: seq<TraceRow>, bound: nat, row: TraceRow)
    requires IdsBelow(rows, bound) && row.traceId == TraceId(APPLIANCE, row.tripTsNs, bound)
    ensures IdsBelow(Storage.Insert(rows, row), bound + 1)
  {
    IdsBelowMonotone(rows, bound);
    assert IdBelow(row, bound + 1);
    hide IdBelow, Storage.Insert;
    var more := Storage.Insert(rows, row);
    forall i | 0 <= i < |more| ensures IdBelow(more[i], bound + 1) {
      assert more[i] in multiset(more);
      if more[i] != row {
        var j :| 0 <= j < |rows| && rows[j] == more[i];
      }
    }
  }

  lemma IdsBelowMonotone(rows: seq<TraceRow>, bound: nat)
    requires IdsBelow(rows, bound)
    ensures IdsBelow(rows, bound + 1)
  {
    hide TraceId;
  }

  // ---------------------------------------------------------------- the loop

  datatype RunStats = RunStats(frames: nat, parsed: nat, dropped: nat, trips: nat, attributed: nat)

  function AttributedCount(rows: seq<TraceRow>): nat {
    if rows == [] then 0
    else AttributedCount(rows[..|rows| - 1]) + if rows[|rows| - 1].attributed then 1 else 0
  }

  lemma AttributedNext(rows: seq<TraceRow>, row: TraceRow)
    ensures AttributedCount(rows + [row]) == AttributedCount(rows) + if row.attributed then 1 else 0
  {
    assert (rows + [row])[..|rows|] == rows;
  }

  /** What holds between two packets of the run. */
  ghost predicate RunInv(edges: seq<DependencyEdge>, tripNode: NodeId, cap: nat, h: History, rows: seq<TraceRow>,
                         stats: RunStats) {
    var expected := TripRows(edges, tripNode, cap, h);
    && stats.frames == stats.parsed + stats.dropped
    && stats.trips == TripCount(h, tripNode) == |expected|
    && stats.attributed == AttributedCount(expected)
    && multiset(rows) == multiset(expected)
    && IdsBelow(rows, |h|)
  }

  lemma RunStep(edges: seq<DependencyEdge>, tripNode: NodeId, cap: nat, h: History, rows: seq<TraceRow>,
                stats: RunStats, t: StateTransition)
    requires RunInv(edges, tripNode, cap, h, rows, stats) && t.seqNo == |h|
    ensures var row := RowOf(edges, cap, h + [t]);
      if IsTrip(h, t, tripNode)
      then
        && !Storage.HasKey(rows, Storage.KeyOf(row))
        && RunInv(edges, tripNode, cap, h + [t], Storage.Insert(rows, row),
                  stats.(trips := stats.trips + 1, attributed := stats.attributed + if row.attributed then 1 else 0))
      else RunInv(edges, tripNode, cap, h + [t], rows, stats)
  {
    hide RowOf, IsTrip, TripRows, TripCount, AttributedCount, IdsBelow, TraceId, Storage.Insert;
    var expected, row := TripRows(edges, tripNode, cap, h), RowOf(edges, cap, h + [t]);
    TripRowsNext(edges, tripNode, cap, h, t);
    if IsTrip(h, t, tripNode) {
      RowIdentity(edges, cap, h + [t]);
      FreshKey(rows, |h|, row);
      IdsBelowInsert(rows, |h|, row);
      AttributedNext(expected, row);
      assert multiset(expected + [row]) == multiset(expected) + multiset{row};
    } else {
      assert expected + [] == expected;
      IdsBelowMonotone(rows, |h|);
    }
  }

  lemma RunStart(edges: seq<DependencyEdge>, tripNode: NodeId, cap: nat)
    ensures RunInv(edges, tripNode, cap, [], [], RunStats(0, 0, 0, 0, 0))
  {
  }

  /** Attribute every trip of a capture. No row is ever rejected as a duplicate; the sink ends up holding
      exactly one row for each true-to-false step of the trip node's level. */
  method RunWithManifest(src: Streaming.StreamingPcapSource, manifest: DependencyManifest, cap: nat)
    returns (duplicate: bool, stats: RunStats, engine: CausalGraphObserver, sink: Storage.InMemorySink,
             ghost choices: seq<Choice>)
    requires src.Valid() && src.packets == [] && manifest.Valid() && cap > 0
    modifies src, src.src
    ensures !duplicate
    ensures Allowed(manifest, src.packets, choices) && engine.history == HistoryOf(src.packets, choices)
    ensures stats.frames == |src.packets| == stats.parsed + stats.dropped && stats.parsed == AcceptedCount(src.packets)
    ensures AllTell(manifest.edges, manifest.tripNode, cap, engine.history, sink.rows)
    ensures TripsOnWire(manifest, src.packets, stats.trips)
    ensures multiset(sink.rows) == multiset(TripRows(manifest.edges, manifest.tripNode, cap, engine.history))
    ensures Storage.Ascending(sink.rows)
    ensures stats.trips == |sink.rows| == FallingEdges(LevelsOf(engine.history, manifest.tripNode))
    ensures stats.attributed == AttributedCount(TripRows(manifest.edges, manifest.tripNode, cap, engine.history))
    ensures Streaming.Failed !in old(src.src.schedule) ==> src.packets == Packets(src.fmt, old(src.src.rest))
  {
    hide Head, Packets, Tail, ParseFrame, TripRows, TripCount, Allowed, HistoryOf, RunInv, RowOf, Attribution, Newest,
      IsTrip, CausalGraphObserver.Valid, Streaming.StreamingPcapSource.Valid, DependencyManifest.Valid,
      DependencyManifest.MayClassify,
      Storage.Ascending, Storage.Insert, FromTrace, Trace.Build, AllTell, AcceptedCount, TripsOnWire, FallingEdges,
      LevelsOf, Findings, Tells, Wire.Accepted, Wire.Cyclic, Unambiguous, StatusLevels;
    engine := new CausalGraphObserver(manifest, cap);
    sink := new Storage.InMemorySink();
    stats := RunStats(0, 0, 0, 0, 0);
    choices := [];
    duplicate := false;
    ghost var all := src.src.rest;
    RunStart(manifest.edges, manifest.tripNode, cap);
    NothingRead(manifest);
    NothingAccepted(src.packets);
    while true
      invariant src.Valid() && engine.Valid() && sink.Valid()
      invariant fresh(engine) && fresh(engine.ring) && fresh(engine.ring.buf) && fresh(sink)
      invariant engine.manifest == manifest && engine.ring.buf.Length == cap
      invariant Allowed(manifest, src.packets, choices) && |choices| == |src.packets| &&
        engine.history == HistoryOf(src.packets, choices)
      invariant RunInv(manifest.edges, manifest.tripNode, cap, engine.history, sink.rows, stats)
      invariant stats.frames == |src.packets| && stats.parsed == AcceptedCount(src.packets) && !duplicate
      invariant src.packets + Packets(src.fmt, src.src.rest) == Packets(src.fmt, all)
      invariant Streaming.Failed !in old(src.src.schedule) ==> Streaming.Failed !in src.src.schedule
      decreases |src.src.rest|
    {
      ghost var rest, done, h, before := src.src.rest, src.packets, engine.history, stats;
      var next := src.NextFrame();
      if next.Err? || next.value.None? {
        if next != Err(Streaming.IoFailure) { ReadsNone(src.fmt, done, rest); }
        break;
      }
      ReadsOne(src.fmt, done, rest);
      var p := next.value.value;
      AcceptedNext(done, p);
      stats := stats.(frames := stats.frames + 1);
      var frame := ParseFrame(p.tsNs, p.bytes);
      ghost var c: Choice := None;
      if frame.Err? {
        CountKeeps(manifest.edges, manifest.tripNode, cap, h, sink.rows, before, stats.(dropped := stats.dropped + 1));
        stats := stats.(dropped := stats.dropped + 1);
      } else {
        TimestampIsCarried(p.tsNs, p.bytes);
        CountKeeps(manifest.edges, manifest.tripNode, cap, h, sink.rows, before, stats.(parsed := stats.parsed + 1));
        stats := stats.(parsed := stats.parsed + 1);
        var analysis;
        analysis, c := engine.Observe(frame.value);
        if c.Some? {
          RunStep(manifest.edges, manifest.tripNode, cap, h, sink.rows, stats,
            StateTransition(|h|, c.value.0, p.tsNs, c.value.1));
          RowIs(manifest.edges, cap, h, StateTransition(|h|, c.value.0, p.tsNs, c.value.1));
        }
        if analysis.Some? {
          stats := stats.(trips := stats.trips + 1);
          var trace := Trace.Build(APPLIANCE, analysis.value, SAFETY_FUNCTION, RESPONSE_BUDGET_NS);
          if trace.rootCatalyst.Some? {
            stats := stats.(attributed := stats.attributed + 1);
          }
          var stored := sink.Put(FromTrace(trace));
          if !stored {
            duplicate := true;
            return;
          }
        }
      }
      AllowedNext(manifest, done, choices, p, c);
      HistoryNext(done, choices, p, c);
      choices := choices + [c];
    }
    RunEnds(manifest.edges, manifest.tripNode, cap, engine.history, sink.rows, stats);
    SameRowsTell(manifest.edges, manifest.tripNode, cap, engine.history, sink.rows);
    TripsFromWire(manifest, src.packets, choices);
  }

  lemma TripsFromWire(m: DependencyManifest, packets: seq<Packet>, choices: seq<Choice>)
    requires m.Valid() && Allowed(m, packets, choices)
    ensures |choices| == |packets|
    ensures TripsOnWire(m, packets, FallingEdges(LevelsOf(HistoryOf(packets, choices), m.tripNode)))
  {
    hide Unambiguous, DependencyManifest.Valid, HistoryOf, StatusLevels, LevelsOf, DependencyManifest.MayClassify;
    if Unambiguous(m.nodes) && m.tripNode in m.nodes && m.nodes[m.tripNode].ProfinetFrame? {
      LevelsFromWire(m, packets, choices, m.nodes[m.tripNode].frameId, m.nodes[m.tripNode].bitIndex);
    }
  }

  lemma NothingAccepted(packets: seq<Packet>)
    requires packets == []
    ensures AcceptedCount(packets) == 0
  {
  }

  lemma NothingRead(m: DependencyManifest)
    requires m.Valid()
    ensures Allowed(m, [], []) && HistoryOf([], []) == []
  {
  }

  lemma CountKeeps(edges: seq<DependencyEdge>, tripNode: NodeId, cap: nat, h: History, rows: seq<TraceRow>,
                   was: RunStats, now: RunStats)
    requires RunInv(edges, tripNode, cap, h, rows, was)
    requires now.trips == was.trips && now.attributed == was.attributed
    requires now.frames - was.frames == now.parsed + now.dropped - was.parsed - was.dropped
    ensures RunInv(edges, tripNode, cap, h, rows, now)
  {
    hide TripRows, TripCount, AttributedCount, IdsBelow;
  }

  lemma RunEnds(edges: seq<DependencyEdge>, tripNode: NodeId, cap: nat, h: History, rows: seq<TraceRow>,
                stats: RunStats)
    requires RunInv(edges, tripNode, cap, h, rows, stats)
    ensures stats.frames == stats.parsed + stats.dropped
    ensures multiset(rows) == multiset(TripRows(edges, tripNode, cap, h))
    ensures stats.trips == |rows| == FallingEdges(LevelsOf(h, tripNode))
    ensures stats.attributed == AttributedCount(TripRows(edges, tripNode, cap, h))
  {
    hide TripRows, TripCount, AttributedCount, IdsBelow, FallingEdges, LevelsOf;
    TripsAreFallingEdges(h, tripNode);
    assert |multiset(rows)| == |multiset(TripRows(edges, tripNode, cap, h))|;
  }

  // ---------------------------------------------------------------- budgets over whole runs

  /** Raising budgets over a whole run reports the same trips, and attributes no more of them. */
  lemma {:induction false} RaisingBudgetsOverRun(tight: seq<DependencyEdge>, loose: seq<DependencyEdge>,
                                                 tripNode: NodeId,
                                                 cap: nat, h: History)
    requires Loosened(tight, loose)
    ensures var before, after := TripRows(tight, tripNode, cap, h), TripRows(loose, tripNode, cap, h);
      && |after| == |before|
      && (forall i :: 0 <= i < |after| ==> KeepsAccount(before[i], after[i]))
      && AttributedCount(after) <= AttributedCount(before)
  {
    hide RowOf, TripAt, Loosened, KeepsAccount;
    if h != [] {
      var init := h[..|h| - 1];
      RaisingBudgetsOverRun(tight, loose, tripNode, cap, init);
      var before, after := TripRows(tight, tripNode, cap, init), TripRows(loose, tripNode, cap, init);
      if !TripAt(h, |h| - 1, tripNode) {
        assert before + [] == before && after + [] == after;
      } else {
        RaisedRow(tight, loose, cap, h);
        AttributedNext(before, RowOf(tight, cap, h));
        AttributedNext(after, RowOf(loose, cap, h));
      }
    }
  }

  /** The same trip, attributed after the change only if it was before. */
  ghost predicate KeepsAccount(before: TraceRow, after: TraceRow) {
    after.tripTsNs == before.tripTsNs && after.traceId == before.traceId && (after.attributed ==> before.attributed)
  }

  lemma RaisedRow(tight: seq<DependencyEdge>, loose: seq<DependencyEdge>, cap: nat, h: History)
    requires Loosened(tight, loose) && h != []
    ensures KeepsAccount(RowOf(tight, cap, h), RowOf(loose, cap, h))
    ensures RowOf(loose, cap, h).attributed ==> RowOf(tight, cap, h).attributed
  {
    hide TraceId, Loosened, Newest;
    RaisingBudgetsNeverAccuses(tight, loose, Newest(h, cap), h[|h| - 1]);
    AttributedIffRanked(tight, cap, h);
    AttributedIffRanked(loose, cap, h);
    RowIdentity(tight, cap, h);
    RowIdentity(loose, cap, h);
    hide Attribution, RowOf;
  }

  lemma AttributedIffRanked(edges: seq<DependencyEdge>, cap: nat, h: History)
    requires h != []
    ensures RowOf(edges, cap, h).attributed <==> Attribution(edges, Newest(h, cap), h[|h| - 1]).rankedCatalysts != []
  {
    hide TraceId, Newest, Attribution;
  }
}
