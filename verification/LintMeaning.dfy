/** What the unreachable-trip-node warning promises about every later run. */
module LintMeaning {
  import opened Basics
  import opened CausalTypes
  import opened History
  import opened Runs
  import opened BackwardWalk
  import opened Ranking
  import opened AttributionTheorems
  import opened Manifest

  /** No trip of any possible run is ever attributed. */
  ghost predicate NeverAttributes(nodes: NodeTable, edges: seq<DependencyEdge>, tripNode: NodeId) {
    forall h, cap: nat :: TripRun(nodes, h, tripNode) && cap > 0 ==>
      Attribution(edges, Newest(h, cap), h[|h| - 1]).rankedCatalysts == []
  }

  /** A run whose only measured gap exceeds the budget of `e` by one nanosecond. */
  function LateRun(nodes: NodeTable, e: DependencyEdge): History
    requires e.wcetNs <= MAX_SANE_WCET_NS
  {
    [StateTransition(0, e.to, 0, Some(true)), StateTransition(1, e.from, 0, High(nodes, e.from)),
     StateTransition(2, e.to, e.wcetNs + 1, Some(false))]
  }

  lemma LateRunTrips(nodes: NodeTable, e: DependencyEdge)
    requires e.wcetNs <= MAX_SANE_WCET_NS && WatchesInterlock(nodes, e.to) && CanReport(nodes, e.from)
    ensures TripRun(nodes, LateRun(nodes, e), e.to)
  {
    hide LastLevel;
    var h := LateRun(nodes, e);
    TripMeansFall(h, 2, e.to);
    assert h[0].node == e.to && h[0].interlock == Some(true) &&
      h[1] == StateTransition(1, e.from, 0, High(nodes, e.from));
    assert h[2].interlock == Some(false);
  }

  lemma LateRunFindsTrigger(nodes: NodeTable, e: DependencyEdge)
    requires e.wcetNs <= MAX_SANE_WCET_NS
    ensures LastForNodeBefore(Newest(LateRun(nodes, e), 3), e.from, e.wcetNs + 1) == Some(LateRun(nodes, e)[1])
  {
    var h, view := LateRun(nodes, e), Newest(LateRun(nodes, e), 3);
    assert view[0] == h[2] && view[1] == h[1];
    FoundAt(view, 1, e.from, e.wcetNs + 1);
  }

  lemma GenuineIntoTripIsWalked(edges: seq<DependencyEdge>, view: seq<StateTransition>, trip: StateTransition, s: Step)
    requires Genuine(edges, view, s) && s.effect == trip
    ensures s in WalkFromTrip(edges, view, trip)
  {
    hide WalkFromTrip, Walk;
    var log, visited := WalkFacts(edges, view, trip);
  }

  lemma LateRunIsAttributed(nodes: NodeTable, edges: seq<DependencyEdge>, e: DependencyEdge)
    requires e in edges && e.wcetNs <= MAX_SANE_WCET_NS && WatchesInterlock(nodes, e.to) && CanReport(nodes, e.from)
    ensures TripRun(nodes, LateRun(nodes, e), e.to)
    ensures Attribution(edges, Newest(LateRun(nodes, e), 3), LateRun(nodes, e)[2]).rankedCatalysts != []
  {
    LateRunTrips(nodes, e);
    LateRunFindsTrigger(nodes, e);
    hide Attribution, WalkFromTrip, Walk, TripRun, Newest, LastForNodeBefore;
    var h := LateRun(nodes, e);
    var view, trip := Newest(h, 3), h[2];
    var s := Step(e, trip, h[1]);
    GenuineIntoTripIsWalked(edges, view, trip, s);
    assert s.OverBudget();
    UnattributedIffWithinBudget(edges, view, trip);
  }

  /** Without a source that can report, nothing is ever measured. */
  lemma NothingToWalk(nodes: NodeTable, edges: seq<DependencyEdge>, h: History, cap: nat, tripNode: NodeId)
    requires TripRun(nodes, h, tripNode)
    requires !Fed(nodes, edges, tripNode)
    ensures Attribution(edges, Newest(h, cap), h[|h| - 1]).rankedCatalysts == []
  {
    hide Attribution, WalkFromTrip;
    var view, trip := Newest(h, cap), h[|h| - 1];
    RecordedCanReport(nodes, h, cap);
    var log, visited := WalkFacts(edges, view, trip);
    if log != [] {
      FirstStep(edges, view, trip, log);
    }
    UnattributedIffWithinBudget(edges, view, trip);
  }

  /** No trip of any run could be attributed if and only if no edge leads into the trip node from a node that
      can report. Where the lint fires there is no edge at all. */
  lemma UnreachableMeansNeverAttributed(nodes: NodeTable, edges: seq<DependencyEdge>, tripNode: NodeId)
    requires WatchesInterlock(nodes, tripNode) && forall e :: e in edges ==> e.wcetNs <= MAX_SANE_WCET_NS
    ensures NeverAttributes(nodes, edges, tripNode) <==> !Fed(nodes, edges, tripNode)
    ensures Incoming(edges, tripNode) == [] ==> NeverAttributes(nodes, edges, tripNode)
  {
    hide Attribution, LateRun;
    if !Fed(nodes, edges, tripNode) {
      forall h, cap: nat | TripRun(nodes, h, tripNode) && cap > 0
        ensures Attribution(edges, Newest(h, cap), h[|h| - 1]).rankedCatalysts == []
      {
        NothingToWalk(nodes, edges, h, cap, tripNode);
      }
    } else {
      var e :| e in edges && e.to == tripNode && CanReport(nodes, e.from);
      LateRunIsAttributed(nodes, edges, e);
      LateRunEnds(nodes, e);
    }
  }

  lemma LateRunEnds(nodes: NodeTable, e: DependencyEdge)
    requires e.wcetNs <= MAX_SANE_WCET_NS
    ensures |LateRun(nodes, e)| == 3
  {
  }

  /** The lint is silent about a trip node fed only by a ROS 2 matcher on the pose port, which never reports. */
  lemma SilentLint()
    ensures var nodes, edges := map[1 := ProfinetFrame(0x8001, 0), 2 := Ros2Port(60008)], [DependencyEdge(2, 1, 1_000)];
      Incoming(edges, 1) != [] && NeverAttributes(nodes, edges, 1)
  {
    hide NeverAttributes;
    var nodes: NodeTable := map[1 := ProfinetFrame(0x8001, 0), 2 := Ros2Port(60008)];
    var edges := [DependencyEdge(2, 1, 1_000)];
    assert edges[0] in Incoming(edges, 1);
    UnreachableMeansNeverAttributed(nodes, edges, 1);
  }
}
