/** A concrete manifest, outside a funnel, and a capture whose trip is left UNATTRIBUTED although an upstream
    edge instance broke its budget. */
module HiddenViolation {
  import opened Basics
  import opened CausalTypes
  import opened History
  import opened BackwardWalk
  import opened Ranking
  import opened AttributionTheorems
  import opened Graphs
  import opened Runs
  import opened Completeness
  import opened Manifest
  import opened PcapFormat
  import opened ManifestRun
  import opened Captures
  import opened Eviction
  import opened ManifestVerdicts

  const AT := DependencyEdge(2, 1, 100)
  const NT := DependencyEdge(3, 1, 50)
  const NA := DependencyEdge(3, 2, 50)
  const MN := DependencyEdge(4, 3, 50)

  /** 4 feeds 3; 3 feeds 1 directly and by way of 2. */
  function Wiring(): seq<DependencyEdge> {
    [AT, NT, NA, MN]
  }

  const HIGH := StateTransition(0, 1, 0, Some(true))
  const M0 := StateTransition(1, 4, 0, None)
  const N0 := StateTransition(2, 3, 100, None)
  const A := StateTransition(3, 2, 110, None)
  const M1 := StateTransition(4, 4, 150, None)
  const N1 := StateTransition(5, 3, 160, None)
  const TRIP := StateTransition(6, 1, 170, Some(false))

  function Run(): History {
    [HIGH, M0, N0, A, M1, N1, TRIP]
  }

  function RunView(): seq<StateTransition> {
    [TRIP, N1, M1, A, N0, M0, HIGH]
  }

  /** A safety PLC on bit 3 of its status, two ROS 2 topics and a robot controller. */
  function Cell(): ManifestCfg {
    ManifestCfg(
      [NodeCfg(1, ProfinetFrame(0x8001, 3)), NodeCfg(2, Ros2Port(7400)),
       NodeCfg(3, Ros2Port(7401)), NodeCfg(4, FanucPose)],
      Wiring(), 1)
  }

  function Table(): NodeTable {
    map[1 := ProfinetFrame(0x8001, 3), 2 := Ros2Port(7400), 3 := Ros2Port(7401), 4 := FanucPose]
  }

  /** What validation makes of it. */
  ghost function Engine(): DependencyManifest {
    EngineOf(Cell(), Table())
  }

  lemma WiringIsOrdered()
    ensures TopologicalOrder(Wiring(), [4, 3, 2, 1])
  {
    var order: seq<NodeId> := [4, 3, 2, 1];
    assert order[0] == 4 && order[1] == 3 && order[2] == 2 && order[3] == 1;
    forall e | e in Wiring() ensures e.from in order && e.to in order && IndexIn(order, e.from) < IndexIn(order, e.to) {
      assert e == AT || e == NT || e == NA || e == MN;
    }
  }

  lemma CellIsDeclared()
    ensures DistinctIds(Cell().nodes) && DeclaresInterlock(Cell().nodes, 1) && EdgesOk(Cell().nodes, Wiring())
  {
    var nodes := Cell().nodes;
    assert nodes[0].id == 1 && nodes[1].id == 2 && nodes[2].id == 3 && nodes[3].id == 4;
    assert Declares(nodes, 1) && Declares(nodes, 2) && Declares(nodes, 3) && Declares(nodes, 4);
    assert DeclaresInterlock(nodes, 1);
    hide Cell;
  }

  lemma CellIsAcceptable()
    ensures Acceptable(Cell())
  {
    WiringIsOrdered();
    CellIsDeclared();
    hide TopologicalOrder, DistinctIds, DeclaresInterlock, EdgesOk, Acyclic, Wiring;
    OrderMeansAcyclic(Wiring(), [4, 3, 2, 1]);
  }

  lemma CellTable()
    ensures TableOf(Cell().nodes, Table()) && forall id :: id in Table() ==> Table()[id].ShiftInRange()
  {
    var nodes := Cell().nodes;
    assert nodes[0].id == 1 && nodes[1].id == 2 && nodes[2].id == 3 && nodes[3].id == 4;
  }

  lemma RunIsPossible()
    ensures TripRun(Table(), Run(), 1) && Newest(Run(), 7) == RunView()
  {
    hide LastLevel;
    TripMeansFall(Run(), 6, 1);
    assert Run()[0] == HIGH && Run()[1] == M0 && Run()[2] == N0 && Run()[3] == A && Run()[4] == M1 && Run()[5] == N1;
  }

  lemma Lookups()
    ensures LastForNodeBefore(RunView(), 2, 170) == Some(A)
    ensures LastForNodeBefore(RunView(), 3, 170) == Some(N1)
    ensures LastForNodeBefore(RunView(), 4, 160) == Some(M1)
    ensures LastForNodeBefore(RunView(), 3, 110) == Some(N0)
    ensures LastForNodeBefore(RunView(), 4, 100) == Some(M0)
    ensures LastForNodeBefore(RunView(), 3, 161) == Some(N1)
    ensures LastForNodeBefore(RunView(), 2, 111) == Some(A)
  {
    hide LastForNodeBefore;
    FoundAt(RunView(), 3, 2, 170);
    FoundAt(RunView(), 1, 3, 170);
    FoundAt(RunView(), 2, 4, 160);
    FoundAt(RunView(), 4, 3, 110);
    FoundAt(RunView(), 5, 4, 100);
    FoundAt(RunView(), 1, 3, 161);
    FoundAt(RunView(), 3, 2, 111);
  }

  lemma IncomingAfter(edges: seq<DependencyEdge>, e: DependencyEdge, n: NodeId)
    ensures Incoming(edges + [e], n) == Incoming(edges, n) + if e.to == n then [e] else []
  {
    assert (edges + [e])[..|edges|] == edges;
  }

  lemma IncomingOfFour(a: DependencyEdge, b: DependencyEdge, c: DependencyEdge, d: DependencyEdge, n: NodeId)
    ensures Incoming([a, b, c, d], n) == Incoming([a, b, c], n) + if d.to == n then [d] else []
    ensures Incoming([a, b, c], n) == Incoming([a, b], n) + if c.to == n then [c] else []
    ensures Incoming([a, b], n) == (if a.to == n then [a] else []) + if b.to == n then [b] else []
  {
    assert Incoming([], n) == [];
    IncomingAfter([], a, n);
    assert [] + [a] == [a] && [a] + [b] == [a, b] && [a, b] + [c] == [a, b, c] && [a, b, c] + [d] == [a, b, c, d];
    hide Incoming;
    IncomingAfter([a], b, n);
    IncomingAfter([a, b], c, n);
    IncomingAfter([a, b, c], d, n);
  }

  lemma IncomingOf(n: NodeId)
    ensures Incoming(Wiring(), n) == if n == 1 then [AT, NT] else if n == 2 then [NA] else if n == 3 then [MN] else []
  {
    hide Incoming;
    IncomingOfFour(AT, NT, NA, MN, n);
  }

  lemma ExpandOne()
    ensures Expand(RunView(), TRIP, 1, 170, [AT, NT]) == [Step(AT, TRIP, A), Step(NT, TRIP, N1)]
  {
    Lookups();
    hide LastForNodeBefore, RunView;
    assert [AT, NT][..1] == [AT] && [AT][..0] == [];
    assert Expand(RunView(), TRIP, 1, 170, [AT]) == [Step(AT, TRIP, A)];
  }

  lemma ExpandThree()
    ensures Expand(RunView(), TRIP, 3, 160, [MN]) == [Step(MN, N1, M1)]
  {
    Lookups();
    hide LastForNodeBefore, RunView;
    assert [MN][..0] == [];
  }

  lemma ExpandTwo()
    ensures Expand(RunView(), TRIP, 2, 110, [NA]) == [Step(NA, A, N0)]
  {
    Lookups();
    hide LastForNodeBefore, RunView;
    assert [NA][..0] == [];
  }

  lemma PushOne(s: Step)
    ensures Pushes([s]) == [EntryOf(s)]
  {
  }

  /** The walk from a frontier in this run. */
  function From(frontier: seq<Entry>, visited: set<NodeId>): seq<Step> {
    Walk(Wiring(), RunView(), TRIP, frontier, visited)
  }

  /** One iteration: the popped entry expands into `steps`, or is skipped. */
  lemma Pop(rest: seq<Entry>, entry: Entry, visited: set<NodeId>, incoming: seq<DependencyEdge>, steps: seq<Step>,
            next: seq<Entry>)
    requires Incoming(Wiring(), entry.node) == incoming
    requires Expand(RunView(), TRIP, entry.node, entry.ts, incoming) == steps && next == rest + Pushes(steps)
    ensures entry.node in visited ==> From(rest + [entry], visited) == From(rest, visited)
    ensures entry.node !in visited ==> From(rest + [entry], visited) == steps + From(next, visited + {entry.node})
  {
    hide Walk, Expand, Incoming, Pushes;
    WalkPops(Wiring(), RunView(), TRIP, rest, entry, visited);
  }

  lemma ThenSkipThree()
    ensures From([Entry(3, 100)], {1, 2, 3, 4}) == []
  {
    hide Walk;
    WalkPops(Wiring(), RunView(), TRIP, [], Entry(3, 100), {1, 2, 3, 4});
    assert [] + [Entry(3, 100)] == [Entry(3, 100)];
    WalkEnds(Wiring(), RunView(), TRIP, {1, 2, 3, 4});
  }

  lemma ThenExpandTwo()
    ensures From([Entry(2, 110)], {1, 3, 4}) == [Step(NA, A, N0)]
  {
    hide From, Incoming, Expand, RunView, Wiring, Pushes;
    assert From([] + [Entry(2, 110)], {1, 3, 4}) == [Step(NA, A, N0)] + From([Entry(3, 100)], {1, 3, 4} + {2}) by {
      IncomingOf(2);
      ExpandTwo();
      PushOne(Step(NA, A, N0));
      assert [] + [Entry(3, 100)] == [Entry(3, 100)];
      Pop([], Entry(2, 110), {1, 3, 4}, [NA], [Step(NA, A, N0)], [Entry(3, 100)]);
    }
    assert [] + [Entry(2, 110)] == [Entry(2, 110)];
    assert {1, 3, 4} + {2} == {1, 2, 3, 4};
    ThenSkipThree();
  }

  lemma NothingPushed(rest: seq<Entry>)
    ensures rest == rest + Pushes([])
  {
  }

  lemma ThenExpandFour()
    ensures From([Entry(2, 110), Entry(4, 150)], {1, 3}) == [Step(NA, A, N0)]
  {
    hide From, Incoming, Expand, RunView, Wiring, Pushes;
    IncomingOf(4);
    NothingMeasured(RunView(), 4, 150);
    ThenExpandTwo();
    NothingPushed([Entry(2, 110)]);
    Pop([Entry(2, 110)], Entry(4, 150), {1, 3}, [], [], [Entry(2, 110)]);
    assert [Entry(2, 110)] + [Entry(4, 150)] == [Entry(2, 110), Entry(4, 150)] && {1, 3} + {4} == {1, 3, 4};
  }

  lemma ThenExpandThree()
    ensures From([Entry(2, 110), Entry(3, 160)], {1}) == [Step(MN, N1, M1), Step(NA, A, N0)]
  {
    hide From, Incoming, Expand, RunView, Wiring, Pushes;
    assert From([Entry(2, 110)] + [Entry(3, 160)], {1}) ==
      [Step(MN, N1, M1)] + From([Entry(2, 110), Entry(4, 150)], {1} + {3}) by {
      IncomingOf(3);
      ExpandThree();
      PushOne(Step(MN, N1, M1));
      assert [Entry(2, 110)] + [Entry(4, 150)] == [Entry(2, 110), Entry(4, 150)];
      Pop([Entry(2, 110)], Entry(3, 160), {1}, [MN], [Step(MN, N1, M1)], [Entry(2, 110), Entry(4, 150)]);
    }
    assert [Entry(2, 110)] + [Entry(3, 160)] == [Entry(2, 110), Entry(3, 160)];
    assert {1} + {3} == {1, 3};
    ThenExpandFour();
  }

  lemma PushTwo(s: Step, t: Step)
    ensures [] + Pushes([s, t]) == [EntryOf(s), EntryOf(t)]
  {
  }

  lemma FirstExpandOne()
    ensures From([Entry(1, 170)], {}) ==
      [Step(AT, TRIP, A), Step(NT, TRIP, N1)] + From([Entry(2, 110), Entry(3, 160)], {1})
  {
    hide From, Incoming, Expand, RunView, Wiring, Pushes;
    var steps := [Step(AT, TRIP, A), Step(NT, TRIP, N1)];
    assert From([] + [Entry(1, 170)], {}) == steps + From([Entry(2, 110), Entry(3, 160)], {} + {1}) by {
      IncomingOf(1);
      ExpandOne();
      PushTwo(Step(AT, TRIP, A), Step(NT, TRIP, N1));
      Pop([], Entry(1, 170), {}, [AT, NT], steps, [Entry(2, 110), Entry(3, 160)]);
    }
    assert [] + [Entry(1, 170)] == [Entry(1, 170)];
    assert {} + {1} == {1};
  }

  /** Last in, first out: 3 is expanded at its late report, before 2 leads to its early one. */
  lemma TheWalk()
    ensures WalkFromTrip(Wiring(), RunView(), TRIP) ==
      [Step(AT, TRIP, A), Step(NT, TRIP, N1)] + [Step(MN, N1, M1), Step(NA, A, N0)]
  {
    hide Walk, Wiring, RunView;
    FirstExpandOne();
    ThenExpandThree();
  }

  lemma NothingMeasured(view: seq<StateTransition>, node: NodeId, ts: u64)
    ensures Expand(view, TRIP, node, ts, []) == []
  {
  }

  /** Validation accepts the cell, some capture file is recorded as this run, its trip is reported UNATTRIBUTED,
      and yet upstream of it the edge from 4 to 3 took 100 ns against a budget of 50. */
  lemma ViolationIsHidden() returns (data: seq<byte>, choices: seq<Choice>)
    ensures Acceptable(Cell()) && Engine().Valid() && TableOf(Cell().nodes, Engine().nodes)
    ensures CapturedIn(Engine(), data, choices, Run()) && TripRun(Table(), Run(), 1)
    ensures Attribution(Wiring(), Newest(Run(), 7), TRIP).rankedCatalysts == []
    ensures Upstream(Wiring(), Newest(Run(), 7), TRIP, Step(MN, N0, M0)) && Step(MN, N0, M0).OverBudget()
  {
    CellTable();
    hide Acceptable, DependencyManifest.Valid, TableOf, CapturedIn, Attribution, WalkFromTrip, Walk, Upstream,
      LastForNodeBefore, Table;
    CellIsAcceptable();
    EngineIsValid(Cell(), Table());
    RunIsPossible();
    data, choices := PossibleIsCaptured(Engine(), Run());
    TheWalk();
    UnattributedIffWithinBudget(Wiring(), RunView(), TRIP);
    ViolationIsUpstream();
  }

  lemma ViolationIsUpstream()
    ensures Upstream(Wiring(), RunView(), TRIP, Step(MN, N0, M0)) && Step(MN, N0, M0).OverBudget()
  {
    Lookups();
    hide LastForNodeBefore;
    var chain := [Step(AT, TRIP, A), Step(NA, A, N0), Step(MN, N0, M0)];
    assert UpstreamChain(Wiring(), RunView(), TRIP, chain);
    assert Last(chain) == Step(MN, N0, M0);
  }

  // ---------------------------------------------------------------- on a funnel, but dropped by the ring

  /** A robot controller feeds a safety PLC within a millisecond. */
  const FEED := DependencyEdge(2, 1, 1_000_000)

  function Pair(): ManifestCfg {
    ManifestCfg([NodeCfg(1, ProfinetFrame(0x8001, 0)), NodeCfg(2, FanucPose)], [FEED], 1)
  }

  function PairTable(): NodeTable {
    map[1 := ProfinetFrame(0x8001, 0), 2 := FanucPose]
  }

  lemma PairIsAcceptable()
    ensures Acceptable(Pair()) && TableOf(Pair().nodes, PairTable()) && TopologicalOrder([FEED], [2, 1])
    ensures Funnel(Live(PairTable(), [FEED]), 1)
  {
    var nodes, order: seq<NodeId> := Pair().nodes, [2, 1];
    assert nodes[0].id == 1 && nodes[1].id == 2 && order[0] == 2 && order[1] == 1;
    assert Declares(nodes, 1) && Declares(nodes, 2) && DeclaresInterlock(nodes, 1);
    OrderMeansAcyclic([FEED], order);
    assert forall e :: e in Live(PairTable(), [FEED]) ==> e == FEED;
  }

  /** A funnel, and for every ring size a capture file: the controller reports at 0, the PLC stays high until the
      ring has forgotten that, and falls at 50 s. The trip is UNATTRIBUTED, and the only edge was late by
      almost 50 s. */
  lemma ViolationIsDropped(cap: nat) returns (data: seq<byte>, choices: seq<Choice>)
    requires cap > 0
    ensures Acceptable(Pair()) && EngineOf(Pair(), PairTable()).Valid() && Funnel(Live(PairTable(), [FEED]), 1)
    ensures var h := LostRun(PairTable(), 2, 1, cap);
      && CapturedIn(EngineOf(Pair(), PairTable()), data, choices, h) && TripRun(PairTable(), h, 1)
      && Attribution([FEED], Newest(h, cap), h[|h| - 1]).rankedCatalysts == []
      && EverUpstream([FEED], h, Step(FEED, h[|h| - 1], h[0])) && Step(FEED, h[|h| - 1], h[0]).OverBudget()
  {
    hide Acceptable, TableOf, DependencyManifest.Valid, CapturedIn, Attribution, EverUpstream, LostRun, WalkFromTrip,
      TopologicalOrder, Funnel, Newest, TripAt;
    PairIsAcceptable();
    EngineIsValid(Pair(), PairTable());
    LostRunTrips(PairTable(), 2, 1, cap);
    var h := LostRun(PairTable(), 2, 1, cap);
    data, choices := PossibleIsCaptured(EngineOf(Pair(), PairTable()), h);
    LostRunUnmeasured(PairTable(), [FEED], [2, 1], 2, 1, cap);
    UnattributedIffWithinBudget([FEED], Newest(h, cap), h[|h| - 1]);
    LostStep(PairTable(), [FEED], FEED, 1, cap);
  }
}
