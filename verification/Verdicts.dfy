/** Exactly when the walk sees everything that the ring still holds, and exactly when its UNATTRIBUTED verdict
    can be believed of it. What the ring has dropped is taken up in `Eviction`. */
module Verdicts {
  import opened Basics
  import opened CausalTypes
  import opened History
  import opened Graphs
  import opened Runs
  import opened BackwardWalk
  import opened WalkMirror
  import opened Ranking
  import opened AttributionTheorems
  import opened Completeness
  import opened Scenarios
  import opened Manifest

  // ---------------------------------------------------------------- a scenario around a fork

  /** The scenario plays on the fork from `m` through `n` to `a` and, later in the order, to `b`. */
  ghost predicate PlaysOn(sc: Scenario, live: seq<DependencyEdge>, edges: seq<DependencyEdge>, a: NodeId, b: NodeId) {
    && sc.Ok() && sc.Spans(live, edges) && Fork(live, sc.tripNode, sc.m, sc.n, a, b)
    && a in sc.order && b in sc.order && IndexIn(sc.order, a) == sc.ia < IndexIn(sc.order, b)
  }

  /** The first report of `n`. */
  ghost function Early(sc: Scenario): StateTransition
    requires sc.Ok()
  {
    sc.Report(IndexIn(sc.order, sc.n))
  }

  lemma ForkOrdered(edges: seq<DependencyEdge>, order: seq<NodeId>, tripNode: NodeId,
                    m: NodeId, n: NodeId, a: NodeId, b: NodeId)
    requires TopologicalOrder(edges, order) && Fork(edges, tripNode, m, n, a, b)
    ensures m in order && n in order && a in order && b in order && tripNode in order
    ensures IndexIn(order, m) < IndexIn(order, n) < IndexIn(order, a) <= IndexIn(order, tripNode)
    ensures IndexIn(order, n) < IndexIn(order, b) <= IndexIn(order, tripNode)
  {
    var pa :| IsPath(edges, a, pa, tripNode);
    PathAscends(edges, order, a, pa, tripNode);
    var pb :| IsPath(edges, b, pb, tripNode);
    PathAscends(edges, order, b, pb, tripNode);
  }

  /** `n` is met at both of its reports, and leads back to `m` from each. */
  lemma BothInstances(sc: Scenario, live: seq<DependencyEdge>, edges: seq<DependencyEdge>, a: NodeId, b: NodeId)
    returns (up: DependencyEdge)
    requires PlaysOn(sc, live, edges, a, b)
    ensures up in edges && up.from == sc.m && up.to == sc.n
    ensures forall x :: x in {Early(sc), sc.Late()} ==>
      && x.node == sc.n && Genuine(edges, sc.View(), sc.Up(up, x))
      && Upstream(edges, sc.View(), sc.Fall(), sc.Up(up, x))
  {
    hide Upstream, Genuine, Reaches;
    ForkOrdered(live, sc.order, sc.tripNode, sc.m, sc.n, a, b);
    up :| up in live && up.from == sc.m && up.to == sc.n;
    var ea :| ea in live && ea.from == sc.n && ea.to == a;
    var eb :| eb in live && eb.from == sc.n && eb.to == b;
    sc.StepsBack(live, edges, ea, up, Early(sc));
    sc.StepsBack(live, edges, eb, up, sc.Late());
  }

  /** Outside a funnel the walk misses one of them. */
  lemma ForkIsMissed(sc: Scenario, live: seq<DependencyEdge>, edges: seq<DependencyEdge>, a: NodeId, b: NodeId)
    requires PlaysOn(sc, live, edges, a, b)
    ensures !Complete(edges, sc.View(), sc.Fall())
  {
    hide Upstream, Complete;
    var up := BothInstances(sc, live, edges, a, b);
    TwoInstancesMissed(edges, sc.View(), sc.Fall(), sc.Up(up, Early(sc)), sc.Up(up, sc.Late()));
  }

  /** A fork of live edges has its scenario, for either choice of the second report of `m`. */
  lemma ForkPlays(nodes: NodeTable, edges: seq<DependencyEdge>, order: seq<NodeId>, tripNode: NodeId,
                  m: NodeId, n: NodeId, a: NodeId, b: NodeId) returns (sc: Scenario, sc': Scenario)
    requires TopologicalOrder(Live(nodes, edges), order) && forall x :: x in order ==> CanReport(nodes, x)
    requires WatchesInterlock(nodes, tripNode) && Fork(Live(nodes, edges), tripNode, m, n, a, b)
    requires a in order && b in order && IndexIn(order, a) < IndexIn(order, b)
    ensures PlaysOn(sc, Live(nodes, edges), edges, a, b) && PlaysOn(sc', Live(nodes, edges), edges, a, b)
    ensures sc.order == order && sc.nodes == nodes && sc.tripNode == tripNode && sc.m == m && sc.n == n
    ensures sc.again == sc.Stamp(IndexIn(order, m)) && sc' == sc.(again := sc.Stamp(sc.ia))
  {
    DistinctNodesFit(order);
    ForkOrdered(Live(nodes, edges), order, tripNode, m, n, a, b);
    sc := Scenario(nodes, order, tripNode, m, n, IndexIn(order, a), 2 * (IndexIn(order, m) + 1));
    sc' := sc.(again := sc.Stamp(sc.ia));
  }

  // ---------------------------------------------------------------- completeness

  /** The walk sees all that the ring holds upstream of every trip of every possible run. */
  ghost predicate CompleteOnRing(nodes: NodeTable, edges: seq<DependencyEdge>, tripNode: NodeId) {
    forall h, cap: nat :: TripRun(nodes, h, tripNode) && cap > 0 ==> Complete(edges, Newest(h, cap), h[|h| - 1])
  }

  /** The exact condition, checkable on the manifest before any capture is read: the walk sees all that the ring
      holds upstream of every trip of every run if and only if the trip's ancestors form a funnel. */
  lemma RingCompleteIffFunnel(nodes: NodeTable, edges: seq<DependencyEdge>, order: seq<NodeId>, tripNode: NodeId)
    requires TopologicalOrder(edges, order) && WatchesInterlock(nodes, tripNode)
    ensures CompleteOnRing(nodes, edges, tripNode) <==> Funnel(Live(nodes, edges), tripNode)
  {
    hide Complete, TopologicalOrder, Fork, PlaysOn, Live;
    var live := Live(nodes, edges);
    var r := LiveOrder(nodes, edges, order);
    if Funnel(live, tripNode) {
      forall h, cap: nat | TripRun(nodes, h, tripNode) && cap > 0
        ensures Complete(edges, Newest(h, cap), h[|h| - 1])
      {
        LiveCarries(nodes, edges, h, cap);
        FunnelIsComplete(live, r, edges, Newest(h, cap), h[|h| - 1]);
      }
    } else {
      var h := MissedOutsideFunnel(nodes, edges, r, tripNode);
      assert !Complete(edges, Newest(h, |h|), h[|h| - 1]);
    }
  }

  /** Outside a funnel some run is not seen whole, although the ring holds all of it. */
  lemma MissedOutsideFunnel(nodes: NodeTable, edges: seq<DependencyEdge>, order: seq<NodeId>, tripNode: NodeId)
    returns (h: History)
    requires TopologicalOrder(Live(nodes, edges), order) && forall x :: x in order ==> CanReport(nodes, x)
    requires WatchesInterlock(nodes, tripNode) && !Funnel(Live(nodes, edges), tripNode)
    ensures TripRun(nodes, h, tripNode) && !Complete(edges, Newest(h, |h|), h[|h| - 1])
  {
    hide Complete, TopologicalOrder, Fork, PlaysOn, Live;
    var m, n, a, b := PickFork(Live(nodes, edges), order, tripNode);
    var sc, _ := ForkPlays(nodes, edges, order, tripNode, m, n, a, b);
    PlayedRun(sc, Live(nodes, edges), edges, a, b);
    ForkIsMissed(sc, Live(nodes, edges), edges, a, b);
    h := sc.Run();
  }

  lemma ForkSwaps(live: seq<DependencyEdge>, tripNode: NodeId, m: NodeId, n: NodeId, a: NodeId, b: NodeId)
    requires Fork(live, tripNode, m, n, a, b)
    ensures Fork(live, tripNode, m, n, b, a)
  {
  }

  lemma PickFork(live: seq<DependencyEdge>, order: seq<NodeId>, tripNode: NodeId)
    returns (m: NodeId, n: NodeId, a: NodeId, b: NodeId)
    requires TopologicalOrder(live, order) && !Funnel(live, tripNode)
    ensures Fork(live, tripNode, m, n, a, b)
    ensures a in order && b in order && IndexIn(order, a) < IndexIn(order, b)
  {
    hide Fork;
    m, n, a, b :| Fork(live, tripNode, m, n, a, b) && a != b;
    ForkOrdered(live, order, tripNode, m, n, a, b);
    ForkSwaps(live, tripNode, m, n, a, b);
    if IndexIn(order, b) < IndexIn(order, a) {
      a, b := b, a;
    }
  }

  lemma PlayedRun(sc: Scenario, live: seq<DependencyEdge>, edges: seq<DependencyEdge>, a: NodeId, b: NodeId)
    requires PlaysOn(sc, live, edges, a, b)
    ensures TripRun(sc.nodes, sc.Run(), sc.tripNode)
    ensures sc.Run()[|sc.Run()| - 1] == sc.Fall() && Newest(sc.Run(), |sc.Run()|) == sc.View()
    ensures forall t :: t in sc.Run() ==> t.tsNs <= MAX_SANE_WCET_NS
  {
    sc.RunIsTripRun();
    forall t | t in sc.Run() ensures t.tsNs <= MAX_SANE_WCET_NS {
      var i :| 0 <= i < |sc.Run()| && sc.Run()[i] == t;
      if i < |sc.order| { assert t == sc.Report(i); }
    }
  }

  // ---------------------------------------------------------------- which instance is walked

  /** The walk visits every node of the order that leads to the trip node. */
  lemma {:induction false} VisitsAncestors(sc: Scenario, live: seq<DependencyEdge>, edges: seq<DependencyEdge>,
                                           log: seq<Step>, visited: set<NodeId>, x: NodeId, path: seq<DependencyEdge>)
    requires sc.Ok() && sc.Spans(live, edges) && x in sc.order && IsPath(live, x, path, sc.tripNode)
    requires Inv(edges, sc.View(), sc.Fall(), log, [], visited)
    ensures x in visited
    decreases |path|
  {
    if path != [] {
      var e := path[0];
      VisitsAncestors(sc, live, edges, log, visited, e.to, path[1..]);
      assert ExpandedNode(edges, sc.View(), sc.Fall(), log, e.to);
      var y :| Known(log, sc.Fall(), y) && y.node == e.to && ExpandedAt(edges, sc.View(), log, y);
      KnownIsRecorded(sc, edges, log, y);
      sc.FindsSomething(x, y.tsNs);
      var s := Step(e, y, LastForNodeBefore(sc.View(), x, y.tsNs).value);
      assert Genuine(edges, sc.View(), s) && s in log;
    }
  }

  lemma KnownIsRecorded(sc: Scenario, edges: seq<DependencyEdge>, log: seq<Step>, y: StateTransition)
    requires sc.Ok() && Sound(edges, sc.View(), sc.Fall(), log) && Known(log, sc.Fall(), y)
    ensures y in sc.View() && y.node in sc.order && sc.Stamp(IndexIn(sc.order, y.node)) <= y.tsNs
    ensures y.node == sc.n ==> y in {Early(sc), sc.Late()}
  {
    sc.Positions();
    if y != sc.Fall() {
      var i :| 0 <= i < |log| && log[i].trigger == y;
      assert log[i] in log && Genuine(edges, sc.View(), log[i]);
    }
    sc.StampedInOrder(y);
  }

  /** The walk expands `n` at one of its two reports. */
  lemma WalksOne(sc: Scenario, live: seq<DependencyEdge>, edges: seq<DependencyEdge>, a: NodeId, b: NodeId,
                 up: DependencyEdge)
    returns (y: StateTransition)
    requires PlaysOn(sc, live, edges, a, b)
    requires forall x :: x in {Early(sc), sc.Late()} ==> x.node == sc.n && Genuine(edges, sc.View(), sc.Up(up, x))
    ensures y in {Early(sc), sc.Late()}
    ensures sc.Up(up, y) in WalkFromTrip(edges, sc.View(), sc.Fall())
  {
    hide WalkFromTrip, Genuine;
    var log, visited := WalkFacts(edges, sc.View(), sc.Fall());
    ForkOrdered(live, sc.order, sc.tripNode, sc.m, sc.n, a, b);
    var e :| e in live && e.from == sc.n && e.to == a;
    ReachesBack(live, e, sc.tripNode);
    var path :| IsPath(live, sc.n, path, sc.tripNode);
    VisitsAncestors(sc, live, edges, log, visited, sc.n, path);
    assert ExpandedNode(edges, sc.View(), sc.Fall(), log, sc.n);
    y :| Known(log, sc.Fall(), y) && y.node == sc.n && ExpandedAt(edges, sc.View(), log, y);
    KnownIsRecorded(sc, edges, log, y);
  }

  /** Moving the second report of `m` does not change at which report `n` is expanded. */
  lemma MovingIsSettled(sc: Scenario, sc': Scenario, live: seq<DependencyEdge>, edges: seq<DependencyEdge>)
    requires sc.Ok() && sc'.Ok() && sc' == sc.(again := sc'.again) && sc.Spans(live, edges)
    ensures Settled({sc.m}, sc.View(), sc'.View(), sc.Fall(), edges)
  {
    var view, view', m := sc.View(), sc'.View(), sc.m;
    AlikeScenarios(sc, sc');
    forall e | e in edges
      ensures SourceSettled({m}, view, view', sc.Fall(), e) && TargetSettled({m}, view, view', e)
    {
      if e.from == m { SourceStays(sc, sc', live, edges, e); }
      if e.to == m { TargetStays(sc, sc', live, edges, e); }
    }
  }

  lemma AlikeScenarios(sc: Scenario, sc': Scenario)
    requires sc.Ok() && sc'.Ok() && sc' == sc.(again := sc'.again)
    ensures AlikeViews({sc.m}, sc.View(), sc'.View())
  {
    sc.Positions();
    sc'.Positions();
    hide Scenario.View, Scenario.Run;
    forall j | 0 <= j < |sc.View()| ensures Alike({sc.m}, sc.View()[j], sc'.View()[j]) {
      if j >= 3 {
        sc.ReportAt(|sc.order| + 2 - j);
        sc'.ReportAt(|sc.order| + 2 - j);
      }
    }
  }

  lemma SourceStays(sc: Scenario, sc': Scenario, live: seq<DependencyEdge>, edges: seq<DependencyEdge>,
                    e: DependencyEdge)
    requires sc.Ok() && sc'.Ok() && sc' == sc.(again := sc'.again) && sc.Spans(live, edges)
    requires e in edges && e.from == sc.m
    ensures SourceSettled({sc.m}, sc.View(), sc'.View(), sc.Fall(), e)
  {
    sc.Positions();
    hide Scenario.View, Scenario.Run, LastForNodeBefore;
    forall t | (t == sc.Fall() || t in sc.View()) && t.node == e.to
      ensures LastForNodeBefore(sc.View(), sc.m, t.tsNs).Some? && LastForNodeBefore(sc'.View(), sc.m, t.tsNs).Some?
    {
      sc.StampedInOrder(t);
      assert e in live;
      sc.FindsSomething(sc.m, t.tsNs);
      sc'.FindsSomething(sc.m, t.tsNs);
    }
  }

  lemma TargetStays(sc: Scenario, sc': Scenario, live: seq<DependencyEdge>, edges: seq<DependencyEdge>,
                    e: DependencyEdge)
    requires sc.Ok() && sc'.Ok() && sc' == sc.(again := sc'.again) && sc.Spans(live, edges)
    requires e in edges && e.to == sc.m
    ensures TargetSettled({sc.m}, sc.View(), sc'.View(), e)
  {
    hide Scenario.View, Scenario.Run, LastForNodeBefore;
    if e.from in sc.order {
      assert e in live;
    }
    forall t, t' | t in sc.View() && t' in sc'.View() && t.node == t'.node == e.to
      ensures LastForNodeBefore(sc.View(), e.from, t.tsNs) == LastForNodeBefore(sc'.View(), e.from, t'.tsNs)
    {
      sc.StampedInOrder(t);
      sc'.StampedInOrder(t');
      if e.from in sc.order {
        var i := IndexIn(sc.order, e.from);
        sc.Finds(i, t.tsNs);
        sc'.Finds(i, t'.tsNs);
      } else {
        NeverReports(sc, e.from, t.tsNs);
        NeverReports(sc', e.from, t'.tsNs);
      }
    }
  }

  lemma NeverReports(sc: Scenario, x: NodeId, beforeTs: nat)
    requires sc.Ok() && x !in sc.order
    ensures LastForNodeBefore(sc.View(), x, beforeTs) == None
  {
    hide Scenario.View, Scenario.Run;
    var r := LastForNodeBefore(sc.View(), x, beforeTs);
    if r.Some? {
      sc.StampedInOrder(r.value);
    }
  }

  // ---------------------------------------------------------------- hiding a violation

  ghost predicate SameWires(wires: seq<DependencyEdge>, edges: seq<DependencyEdge>) {
    |edges| == |wires| && forall i :: 0 <= i < |edges| ==> edges[i].from == wires[i].from && edges[i].to == wires[i].to
  }

  ghost predicate SaneBudgets(edges: seq<DependencyEdge>) {
    forall e :: e in edges ==> 0 < e.wcetNs <= 60_000_000_000
  }

  /** The wires, with budget `g` between `m` and `n` and the largest one everywhere else. */
  function Budgeted(wires: seq<DependencyEdge>, m: NodeId, n: NodeId, g: u64): (edges: seq<DependencyEdge>)
    ensures SameWires(wires, edges)
    ensures forall e :: e in edges ==> e.wcetNs == if e.from == m && e.to == n then g else MAX_SANE_WCET_NS
  {
    seq(|wires|, i requires 0 <= i < |wires| =>
      DependencyEdge(wires[i].from, wires[i].to,
                     if wires[i].from == m && wires[i].to == n then g else MAX_SANE_WCET_NS))
  }

  lemma SameWiresBothWays(wires: seq<DependencyEdge>, edges: seq<DependencyEdge>)
    requires SameWires(wires, edges)
    ensures WiredIn(wires, edges) && WiredIn(edges, wires)
  {
    forall e | e in wires ensures HasEdge(edges, e.from, e.to) {
      var i :| 0 <= i < |wires| && wires[i] == e;
      assert edges[i] in edges;
    }
    forall e | e in edges ensures HasEdge(wires, e.from, e.to) {
      var i :| 0 <= i < |edges| && edges[i] == e;
      assert wires[i] in wires;
    }
  }

  lemma OrderCarriesOver(edges: seq<DependencyEdge>, edges': seq<DependencyEdge>, order: seq<NodeId>)
    requires WiredIn(edges', edges) && TopologicalOrder(edges, order)
    ensures TopologicalOrder(edges', order)
  {
    forall e | e in edges' ensures e.from in order && e.to in order && IndexIn(order, e.from) < IndexIn(order, e.to) {
      assert HasEdge(edges, e.from, e.to);
    }
  }

  /** If `n` is walked at `w` and the budget from `m` is just kept there, a larger gap at `o` stays hidden. */
  lemma GapIsHidden(sc: Scenario, edges: seq<DependencyEdge>, up: DependencyEdge, w: StateTransition,
                    o: StateTransition)
    requires sc.Ok() && up in edges && up.from == sc.m && up.to == sc.n && w.node == sc.n
    requires sc.Up(up, w) in WalkFromTrip(edges, sc.View(), sc.Fall())
    requires Upstream(edges, sc.View(), sc.Fall(), sc.Up(up, o))
    requires sc.Up(up, o).Dt() > sc.Up(up, w).Dt()
    requires forall e :: e in edges ==>
      e.wcetNs == if e.from == sc.m && e.to == sc.n then sc.Up(up, w).Dt() else MAX_SANE_WCET_NS
    ensures !Exact(edges, sc.View(), sc.Fall())
  {
    hide WalkFromTrip, Attribution, Upstream;
    var view, trip := sc.View(), sc.Fall();
    var log, visited := WalkFacts(edges, view, trip);
    forall s | s in log ensures !s.OverBudget() {
      assert Genuine(edges, view, s) && Genuine(edges, view, sc.Up(up, w));
      if s.edge.from == sc.m && s.edge.to == sc.n {
        assert s.effect == w && s.trigger == sc.Up(up, w).trigger;
      } else {
        assert s.Dt() <= trip.tsNs <= MAX_SANE_WCET_NS;
      }
    }
    UnattributedIffWithinBudget(edges, view, trip);
    assert sc.Up(up, o).OverBudget();
  }

  /** Where `n` is walked in one scenario, it is walked in the other, under any smaller budgets. */
  lemma WalkedAtSameReport(sc: Scenario, sc': Scenario, live: seq<DependencyEdge>, edges: seq<DependencyEdge>,
                           tight: seq<DependencyEdge>, s: Step) returns (s': Step)
    requires sc.Ok() && sc'.Ok() && sc' == sc.(again := sc'.again) && sc.Spans(live, edges) && Loosened(tight, edges)
    requires s in WalkFromTrip(edges, sc.View(), sc.Fall()) && s.effect.node != sc.m
    ensures s' in WalkFromTrip(tight, sc'.View(), sc'.Fall()) && s'.effect == s.effect
  {
    hide WalkFromTrip, Settled, Loosened;
    var trip := sc.Fall();
    MovingIsSettled(sc, sc', live, edges);
    WalkFromTripMirrors({sc.m}, sc.View(), sc'.View(), trip, edges);
    WalkFromTripIgnoresBudgets(tight, edges, sc'.View(), trip);
    var log := WalkFromTrip(edges, sc.View(), trip);
    var i :| 0 <= i < |log| && log[i] == s;
    s' := WalkFromTrip(tight, sc'.View(), trip)[i];
  }

  /** The gap from `m` is the same at the early report either way, and larger or smaller at the late one. */
  lemma Gaps(sc: Scenario, sc': Scenario, up: DependencyEdge)
    requires sc.Ok() && sc'.Ok()
    requires sc.again == sc.Stamp(IndexIn(sc.order, sc.m)) && sc' == sc.(again := sc.Stamp(sc.ia))
    ensures var g := 2 * (IndexIn(sc.order, sc.n) - IndexIn(sc.order, sc.m));
      && 1 < g <= MAX_SANE_WCET_NS
      && sc.Up(up, Early(sc)).Dt() == g && sc.Up(up, sc.Late()).Dt() > g
      && sc'.Up(up, Early(sc')).Dt() == g && sc'.Up(up, sc'.Late()).Dt() == 1
  {
  }

  /** Around a fork, some sane budgets and some run hide a violation. */
  lemma ForkHides(nodes: NodeTable, wires: seq<DependencyEdge>, order: seq<NodeId>, tripNode: NodeId,
                  m: NodeId, n: NodeId, a: NodeId, b: NodeId) returns (edges: seq<DependencyEdge>, h: History)
    requires TopologicalOrder(Live(nodes, wires), order) && forall x :: x in order ==> CanReport(nodes, x)
    requires WatchesInterlock(nodes, tripNode) && Fork(Live(nodes, wires), tripNode, m, n, a, b)
    requires a in order && b in order && IndexIn(order, a) < IndexIn(order, b)
    ensures SameWires(wires, edges) && SaneBudgets(edges) && TripRun(nodes, h, tripNode)
    ensures !Exact(edges, Newest(h, |h|), h[|h| - 1])
    ensures forall t :: t in h ==> t.tsNs <= MAX_SANE_WCET_NS
  {
    hide Exact, WalkFromTrip, Upstream, Genuine, Fork, TopologicalOrder, TripRun, Live;
    ForkOrderedLive(nodes, wires, order, tripNode, m, n, a, b);
    var g: u64 := 2 * (IndexIn(order, n) - IndexIn(order, m));
    var loose, tight := Budgeted(wires, m, n, g), Budgeted(wires, m, n, 1);
    ForkIn(nodes, wires, loose, order, tripNode, m, n, a, b);
    ForkIn(nodes, wires, tight, order, tripNode, m, n, a, b);
    var sc, sc' := ForkPlays(nodes, loose, order, tripNode, m, n, a, b);
    var tsc, tsc' := ForkPlays(nodes, tight, order, tripNode, m, n, a, b);
    var up := BothInstances(sc, Live(nodes, loose), loose, a, b);
    Gaps(sc, sc', up);
    var y := WalksOne(sc, Live(nodes, loose), loose, a, b, up);
    if y == Early(sc) {
      edges, h := loose, sc.Run();
      GapIsHidden(sc, edges, up, y, sc.Late());
      PlayedRun(sc, Live(nodes, loose), loose, a, b);
    } else {
      edges, h := tight, sc'.Run();
      HiddenAfterMoving(sc, sc', Live(nodes, loose), loose, Live(nodes, tight), tight, a, b, sc.Up(up, y));
      PlayedRun(sc', Live(nodes, tight), tight, a, b);
    }
  }

  lemma ForkOrderedLive(nodes: NodeTable, wires: seq<DependencyEdge>, order: seq<NodeId>, tripNode: NodeId,
                        m: NodeId, n: NodeId, a: NodeId, b: NodeId)
    requires TopologicalOrder(Live(nodes, wires), order) && Fork(Live(nodes, wires), tripNode, m, n, a, b)
    ensures m in order && n in order && IndexIn(order, m) < IndexIn(order, n) && |order| <= 0x1_0000_0000
  {
    ForkOrdered(Live(nodes, wires), order, tripNode, m, n, a, b);
    DistinctNodesFit(order);
  }

  lemma ForkIn(nodes: NodeTable, wires: seq<DependencyEdge>, edges: seq<DependencyEdge>, order: seq<NodeId>,
               tripNode: NodeId,
               m: NodeId, n: NodeId, a: NodeId, b: NodeId)
    requires SameWires(wires, edges)
    requires TopologicalOrder(Live(nodes, wires), order) && Fork(Live(nodes, wires), tripNode, m, n, a, b)
    ensures TopologicalOrder(Live(nodes, edges), order) && Fork(Live(nodes, edges), tripNode, m, n, a, b)
  {
    hide TopologicalOrder, Fork, WiredIn;
    SameWiresBothWays(wires, edges);
    LiveWiredIn(nodes, wires, edges);
    LiveWiredIn(nodes, edges, wires);
    ForkCarriesOver(Live(nodes, wires), Live(nodes, edges), tripNode, m, n, a, b);
    OrderCarriesOver(Live(nodes, wires), Live(nodes, edges), order);
  }

  /** If the late report is walked, moving the second report of `m` next to it hides the early gap. */
  lemma HiddenAfterMoving(sc: Scenario, sc': Scenario, live: seq<DependencyEdge>, loose: seq<DependencyEdge>,
                          live': seq<DependencyEdge>, tight: seq<DependencyEdge>, a: NodeId, b: NodeId, s: Step)
    requires PlaysOn(sc, live, loose, a, b) && PlaysOn(sc', live', tight, a, b) && Loosened(tight, loose)
    requires sc.again == sc.Stamp(IndexIn(sc.order, sc.m)) && sc' == sc.(again := sc.Stamp(sc.ia))
    requires s in WalkFromTrip(loose, sc.View(), sc.Fall()) && s.effect == sc.Late()
    requires forall e :: e in tight ==> e.wcetNs == if e.from == sc.m && e.to == sc.n then 1 else MAX_SANE_WCET_NS
    ensures !Exact(tight, sc'.View(), sc'.Fall())
  {
    hide Exact, WalkFromTrip, Upstream, Genuine, Loosened;
    var up := BothInstances(sc', live', tight, a, b);
    Gaps(sc, sc', up);
    var s' := WalkedAtSameReport(sc, sc', live, loose, tight, s);
    var y := WalksOne(sc', live', tight, a, b, up);
    var log, visited := WalkFacts(tight, sc'.View(), sc'.Fall());
    assert y == sc'.Late() by {
      assert s' in log && sc'.Up(up, y) in log && s'.effect.node == sc'.Up(up, y).effect.node;
    }
    GapIsHidden(sc', tight, up, y, Early(sc'));
  }

  // ---------------------------------------------------------------- the verdict

  /** On these wires, whatever sane budgets they are given, and in every possible run: an unattributed trip
      had no budget broken anywhere upstream in what the ring holds. */
  ghost predicate VerdictExactOnRing(nodes: NodeTable, wires: seq<DependencyEdge>, tripNode: NodeId) {
    forall edges, h, cap: nat ::
      SameWires(wires, edges) && SaneBudgets(edges) && TripRun(nodes, h, tripNode) && cap > 0 ==>
        Exact(edges, Newest(h, cap), h[|h| - 1])
  }

  /** Of what the ring holds, UNATTRIBUTED says what it should if and only if the trip's ancestors form a
      funnel. */
  lemma RingVerdictIffFunnel(nodes: NodeTable, wires: seq<DependencyEdge>, order: seq<NodeId>, tripNode: NodeId)
    requires TopologicalOrder(wires, order) && WatchesInterlock(nodes, tripNode)
    ensures VerdictExactOnRing(nodes, wires, tripNode) <==> Funnel(Live(nodes, wires), tripNode)
  {
    hide Exact, TopologicalOrder, Fork, Live, SameWires, SaneBudgets, Possible;
    var r := LiveOrder(nodes, wires, order);
    if Funnel(Live(nodes, wires), tripNode) {
      forall edges, h, cap: nat |
        SameWires(wires, edges) && SaneBudgets(edges) && TripRun(nodes, h, tripNode) && cap > 0
        ensures Exact(edges, Newest(h, cap), h[|h| - 1])
      {
        FunnelExact(nodes, wires, r, edges, tripNode, h, cap);
      }
    } else {
      var m, n, a, b := PickFork(Live(nodes, wires), r, tripNode);
      var edges, h := ForkHides(nodes, wires, r, tripNode, m, n, a, b);
      assert |h| > 0 by { TripRunNonEmpty(nodes, h, tripNode); }
    }
  }

  lemma TripRunNonEmpty(nodes: NodeTable, h: History, tripNode: NodeId)
    requires TripRun(nodes, h, tripNode)
    ensures |h| > 0 && Possible(nodes, h) && h[|h| - 1].node == tripNode
  {
  }

  lemma FunnelExact(nodes: NodeTable, wires: seq<DependencyEdge>, r: seq<NodeId>, edges: seq<DependencyEdge>,
                    tripNode: NodeId, h: History, cap: nat)
    requires TopologicalOrder(Live(nodes, wires), r) && Funnel(Live(nodes, wires), tripNode)
    requires SameWires(wires, edges) && TripRun(nodes, h, tripNode)
    ensures Exact(edges, Newest(h, cap), h[|h| - 1])
  {
    hide TopologicalOrder, Funnel, WiredIn, Attribution, Upstream, TripRun, Possible;
    TripRunNonEmpty(nodes, h, tripNode);
    SameWiresBothWays(wires, edges);
    LiveWiredIn(nodes, edges, wires);
    OrderCarriesOver(Live(nodes, wires), Live(nodes, edges), r);
    FunnelCarriesOver(Live(nodes, wires), Live(nodes, edges), tripNode);
    LiveCarries(nodes, edges, h, cap);
    FunnelVerdict(Live(nodes, edges), r, edges, Newest(h, cap), h[|h| - 1]);
  }
}
