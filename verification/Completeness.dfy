/** How much of the upstream history the walk sees: always nothing else, and all of it where the trip's
    ancestors form a funnel. */
module Completeness {
  import opened CausalTypes
  import opened History
  import opened Graphs
  import opened Runs
  import opened BackwardWalk
  import opened Ranking
  import opened AttributionTheorems

  /** Reference definition, without frontier or visited set: edge instances the ring supports, linked
      backwards from the trip. */
  ghost predicate UpstreamChain(edges: seq<DependencyEdge>, view: seq<StateTransition>, trip: StateTransition,
                                chain: seq<Step>) {
    && chain != []
    && chain[0].effect == trip
    && (forall k :: 0 <= k < |chain| ==> Genuine(edges, view, chain[k]))
    && (forall k :: 0 < k < |chain| ==> chain[k].effect == chain[k - 1].trigger)
  }

  ghost predicate Upstream(edges: seq<DependencyEdge>, view: seq<StateTransition>, trip: StateTransition, s: Step) {
    exists chain :: UpstreamChain(edges, view, trip, chain) && Last(chain) == s
  }

  /** The walk measures nothing but upstream instances. */
  lemma WalkedIsUpstream(edges: seq<DependencyEdge>, view: seq<StateTransition>, trip: StateTransition, s: Step)
    requires s in WalkFromTrip(edges, view, trip)
    ensures Upstream(edges, view, trip, s)
  {
    var log := WalkFromTrip(edges, view, trip);
    WalkIsSound(edges, view, trip);
    var i :| 0 <= i < |log| && log[i] == s;
    var chain := StepEndsChain(log, trip, i);
    assert forall k :: 0 <= k < |chain| ==> chain[k] in log;
    assert UpstreamChain(edges, view, trip, chain);
  }

  /** The walk misses no upstream instance. */
  ghost predicate Complete(edges: seq<DependencyEdge>, view: seq<StateTransition>, trip: StateTransition) {
    forall s :: Upstream(edges, view, trip, s) ==> s in WalkFromTrip(edges, view, trip)
  }

  /** An empty ranking means that no upstream instance broke its budget. */
  ghost predicate Exact(edges: seq<DependencyEdge>, view: seq<StateTransition>, trip: StateTransition) {
    Attribution(edges, view, trip).rankedCatalysts == [] ==>
      forall s :: Upstream(edges, view, trip, s) ==> !s.OverBudget()
  }

  // ---------------------------------------------------------------- a funnel is enough

  /** Between recorded instances and the trip, only the `live` edges carry anything. */
  ghost predicate CarriedBy(live: seq<DependencyEdge>, edges: seq<DependencyEdge>, view: seq<StateTransition>,
                            trip: StateTransition) {
    forall s: Step :: Genuine(edges, view, s) && (s.effect == trip || s.effect in view) ==> s.edge in live
  }

  lemma {:induction false} ChainReaches(live: seq<DependencyEdge>, edges: seq<DependencyEdge>,
                                        view: seq<StateTransition>,
                                        trip: StateTransition, chain: seq<Step>)
    requires CarriedBy(live, edges, view, trip) && UpstreamChain(edges, view, trip, chain)
    ensures Last(chain).edge in live && Last(chain).trigger in view && Reaches(live, Last(chain).edge.to, trip.node)
  {
    var k := |chain| - 1;
    assert Genuine(edges, view, chain[k]);
    if k == 0 {
      assert IsPath(live, trip.node, [], trip.node);
    } else {
      ChainReaches(live, edges, view, trip, chain[..k]);
      var prev := chain[k - 1];
      assert Last(chain[..k]) == prev && Genuine(edges, view, prev);
      ReachesBack(live, prev.edge, trip.node);
    }
  }

  lemma WalkedReaches(live: seq<DependencyEdge>, edges: seq<DependencyEdge>, view: seq<StateTransition>,
                      trip: StateTransition, s: Step)
    requires CarriedBy(live, edges, view, trip) && s in WalkFromTrip(edges, view, trip)
    ensures s.edge in live && s.trigger in view && Reaches(live, s.edge.to, trip.node)
  {
    WalkedIsUpstream(edges, view, trip, s);
    var chain :| UpstreamChain(edges, view, trip, chain) && Last(chain) == s;
    ChainReaches(live, edges, view, trip, chain);
  }

  lemma NoEdgeBackFromTrip(edges: seq<DependencyEdge>, order: seq<NodeId>, e: DependencyEdge, tripNode: NodeId)
    requires TopologicalOrder(edges, order) && e in edges && Reaches(edges, e.to, tripNode)
    ensures e.from != tripNode
  {
    var path :| IsPath(edges, e.to, path, tripNode);
    PathAscends(edges, order, e.to, path, tripNode);
  }

  /** In a funnel, a walked step's trigger is the instance at which its node was expanded. */
  lemma TriggerWasExpanded(live: seq<DependencyEdge>, order: seq<NodeId>, edges: seq<DependencyEdge>,
                           view: seq<StateTransition>, trip: StateTransition,
                           log: seq<Step>, visited: set<NodeId>, s: Step, up: DependencyEdge)
    requires CarriedBy(live, edges, view, trip) && TopologicalOrder(live, order) && Funnel(live, trip.node)
    requires log == WalkFromTrip(edges, view, trip) && Inv(edges, view, trip, log, [], visited)
    requires s in log && up in live && up.to == s.edge.from
    ensures ExpandedAt(edges, view, log, s.trigger)
  {
    var n := s.edge.from;
    assert n in visited;
    assert ExpandedNode(edges, view, trip, log, n);
    var y :| Known(log, trip, y) && y.node == n && ExpandedAt(edges, view, log, y);
    WalkedReaches(live, edges, view, trip, s);
    NoEdgeBackFromTrip(live, order, s.edge, trip.node);
    var i :| 0 <= i < |log| && log[i].trigger == y;
    var s' := log[i];
    assert s' in log && Genuine(edges, view, s') && Genuine(edges, view, s);
    WalkedReaches(live, edges, view, trip, s');
    assert Fork(live, trip.node, up.from, n, s.edge.to, s'.edge.to);
    assert s'.edge.from == n && s'.effect.node == s.effect.node;
  }

  lemma {:induction false} FunnelWalksChain(live: seq<DependencyEdge>, order: seq<NodeId>, edges: seq<DependencyEdge>,
                                            view: seq<StateTransition>, trip: StateTransition,
                                            log: seq<Step>, visited: set<NodeId>, chain: seq<Step>)
    requires CarriedBy(live, edges, view, trip) && TopologicalOrder(live, order) && Funnel(live, trip.node)
    requires log == WalkFromTrip(edges, view, trip) && Inv(edges, view, trip, log, [], visited)
    requires UpstreamChain(edges, view, trip, chain)
    ensures Last(chain) in log
  {
    hide WalkFromTrip, TopologicalOrder, Funnel, CarriedBy;
    var k := |chain| - 1;
    assert Genuine(edges, view, chain[k]);
    if k > 0 {
      FunnelWalksChain(live, order, edges, view, trip, log, visited, chain[..k]);
      var prev := chain[k - 1];
      assert Last(chain[..k]) == prev && Genuine(edges, view, prev);
      ChainReaches(live, edges, view, trip, chain);
      TriggerWasExpanded(live, order, edges, view, trip, log, visited, prev, chain[k].edge);
    }
  }

  /** On a funnel the walk is complete whatever the ring holds. */
  lemma FunnelIsComplete(live: seq<DependencyEdge>, order: seq<NodeId>, edges: seq<DependencyEdge>,
                         view: seq<StateTransition>, trip: StateTransition)
    requires CarriedBy(live, edges, view, trip) && TopologicalOrder(live, order) && Funnel(live, trip.node)
    ensures Complete(edges, view, trip)
  {
    hide CarriedBy, TopologicalOrder, Funnel, WalkFromTrip, Inv;
    var log, visited := WalkFacts(edges, view, trip);
    forall s | Upstream(edges, view, trip, s)
      ensures s in log
    {
      var chain :| UpstreamChain(edges, view, trip, chain) && Last(chain) == s;
      FunnelWalksChain(live, order, edges, view, trip, log, visited, chain);
    }
  }

  /** Where the walk is complete, UNATTRIBUTED means that no upstream edge instance broke its budget, and
      conversely. */
  lemma CompleteVerdict(edges: seq<DependencyEdge>, view: seq<StateTransition>, trip: StateTransition)
    requires Complete(edges, view, trip)
    ensures Attribution(edges, view, trip).rankedCatalysts == [] <==>
      forall s :: Upstream(edges, view, trip, s) ==> !s.OverBudget()
  {
    hide Attribution, WalkFromTrip, Upstream;
    UnattributedIffWithinBudget(edges, view, trip);
    forall s | s in WalkFromTrip(edges, view, trip) ensures Upstream(edges, view, trip, s) {
      WalkedIsUpstream(edges, view, trip, s);
    }
  }

  /** So on a funnel, whatever the ring holds. */
  lemma FunnelVerdict(live: seq<DependencyEdge>, order: seq<NodeId>, edges: seq<DependencyEdge>,
                      view: seq<StateTransition>, trip: StateTransition)
    requires CarriedBy(live, edges, view, trip) && TopologicalOrder(live, order) && Funnel(live, trip.node)
    ensures Attribution(edges, view, trip).rankedCatalysts == [] <==>
      forall s :: Upstream(edges, view, trip, s) ==> !s.OverBudget()
  {
    hide CarriedBy, TopologicalOrder, Funnel, Complete, Attribution, Upstream;
    FunnelIsComplete(live, order, edges, view, trip);
    CompleteVerdict(edges, view, trip);
  }

  /** In a possible run, only live edges carry anything. */
  lemma LiveCarries(nodes: NodeTable, edges: seq<DependencyEdge>, h: History, cap: nat)
    requires h != [] && Possible(nodes, h)
    ensures CarriedBy(Live(nodes, edges), edges, Newest(h, cap), h[|h| - 1])
  {
    RecordedCanReport(nodes, h, cap);
  }

  // ---------------------------------------------------------------- upstream instances

  ghost predicate UpstreamInstance(edges: seq<DependencyEdge>, view: seq<StateTransition>, trip: StateTransition,
                                   x: StateTransition) {
    x == trip || exists s :: Upstream(edges, view, trip, s) && s.trigger == x
  }

  lemma UpstreamExtends(edges: seq<DependencyEdge>, view: seq<StateTransition>, trip: StateTransition, s: Step)
    requires UpstreamInstance(edges, view, trip, s.effect) && Genuine(edges, view, s)
    ensures Upstream(edges, view, trip, s) && UpstreamInstance(edges, view, trip, s.trigger)
  {
    if s.effect == trip {
      assert UpstreamChain(edges, view, trip, [s]) && Last([s]) == s;
    } else {
      var p :| Upstream(edges, view, trip, p) && p.trigger == s.effect;
      var chain :| UpstreamChain(edges, view, trip, chain) && Last(chain) == p;
      assert UpstreamChain(edges, view, trip, chain + [s]) && Last(chain + [s]) == s;
    }
  }

  /** Two upstream steps into different instances of one node cannot both be walked. */
  lemma TwoInstancesMissed(edges: seq<DependencyEdge>, view: seq<StateTransition>, trip: StateTransition, s: Step,
                           s': Step)
    requires Upstream(edges, view, trip, s) && Upstream(edges, view, trip, s')
    requires s.effect.node == s'.effect.node && s.effect != s'.effect
    ensures !Complete(edges, view, trip)
  {
    var log, visited := WalkFacts(edges, view, trip);
  }
}
