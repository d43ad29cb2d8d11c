/** What the bounded ring does to the verdict: judged against the whole run, it is exact on a funnel as long as
    nothing is dropped, and past that on no manifest that could ever attribute anything. */
module Eviction {
  import opened Basics
  import opened CausalTypes
  import opened History
  import opened Graphs
  import opened Runs
  import opened BackwardWalk
  import opened Ranking
  import opened AttributionTheorems
  import opened Completeness
  import opened Manifest
  import opened Verdicts

  /** An edge instance of the whole run, dropped transitions included, linked backwards from the last one. */
  ghost predicate EverUpstream(edges: seq<DependencyEdge>, h: History, s: Step)
    requires h != []
  {
    Upstream(edges, Newest(h, |h|), h[|h| - 1], s)
  }

  /** With a ring of `cap` transitions, the walk measures all of them. */
  ghost predicate SeesAll(edges: seq<DependencyEdge>, h: History, cap: nat)
    requires h != []
  {
    forall s :: EverUpstream(edges, h, s) ==> s in WalkFromTrip(edges, Newest(h, cap), h[|h| - 1])
  }

  /** With a ring of `cap` transitions, an empty ranking means that none of them broke its budget. */
  ghost predicate Believable(edges: seq<DependencyEdge>, h: History, cap: nat)
    requires h != []
  {
    Attribution(edges, Newest(h, cap), h[|h| - 1]).rankedCatalysts == [] ==>
      forall s :: EverUpstream(edges, h, s) ==> !s.OverBudget()
  }

  lemma SeesAllIsBelievable(edges: seq<DependencyEdge>, h: History, cap: nat)
    requires h != [] && SeesAll(edges, h, cap)
    ensures Believable(edges, h, cap)
  {
    hide Attribution, WalkFromTrip, Upstream;
    UnattributedIffWithinBudget(edges, Newest(h, cap), h[|h| - 1]);
  }

  // ---------------------------------------------------------------- while nothing is dropped

  /** What the ring holds is then the whole run. */
  lemma NothingDropped(edges: seq<DependencyEdge>, h: History, cap: nat)
    requires h != [] && |h| <= cap
    ensures Newest(h, cap) == Newest(h, |h|)
    ensures SeesAll(edges, h, cap) <==> Complete(edges, Newest(h, cap), h[|h| - 1])
    ensures Believable(edges, h, cap) <==> Exact(edges, Newest(h, cap), h[|h| - 1])
  {
    var view, trip := Newest(h, cap), h[|h| - 1];
    assert view == Newest(h, |h|);
    hide Newest, Upstream, WalkFromTrip, Attribution;
    assert forall s :: EverUpstream(edges, h, s) <==> Upstream(edges, view, trip, s);
    if Complete(edges, view, trip) {
      forall s | EverUpstream(edges, h, s) ensures s in WalkFromTrip(edges, view, trip) {
        assert Upstream(edges, view, trip, s);
      }
    }
    if SeesAll(edges, h, cap) {
      forall s | Upstream(edges, view, trip, s) ensures s in WalkFromTrip(edges, view, trip) {
        assert EverUpstream(edges, h, s);
      }
    }
  }

  /** The walk sees the whole upstream history of every trip, as long as the run fits the ring. */
  ghost predicate CompleteWhileFitting(nodes: NodeTable, edges: seq<DependencyEdge>, tripNode: NodeId) {
    forall h, cap: nat :: TripRun(nodes, h, tripNode) && |h| <= cap ==> SeesAll(edges, h, cap)
  }

  /** That is so if and only if the trip's ancestors form a funnel. */
  lemma CompleteIffFunnel(nodes: NodeTable, edges: seq<DependencyEdge>, order: seq<NodeId>, tripNode: NodeId)
    requires TopologicalOrder(edges, order) && WatchesInterlock(nodes, tripNode)
    ensures CompleteWhileFitting(nodes, edges, tripNode) <==> Funnel(Live(nodes, edges), tripNode)
  {
    hide Possible, Upstream, WalkFromTrip, TopologicalOrder, Funnel, Newest, TripAt, SeesAll, Complete;
    RingCompleteIffFunnel(nodes, edges, order, tripNode);
    if Funnel(Live(nodes, edges), tripNode) {
      forall h, cap: nat | TripRun(nodes, h, tripNode) && |h| <= cap ensures SeesAll(edges, h, cap) {
        NothingDropped(edges, h, cap);
        assert Complete(edges, Newest(h, cap), h[|h| - 1]);
      }
    } else {
      var r := LiveOrder(nodes, edges, order);
      var h := MissedOutsideFunnel(nodes, edges, r, tripNode);
      NothingDropped(edges, h, |h|);
      assert !SeesAll(edges, h, |h|);
    }
  }

  /** On these wires, whatever sane budgets they are given: an unattributed trip of a run that fits the ring had
      no budget broken anywhere upstream. */
  ghost predicate VerdictExactWhileFitting(nodes: NodeTable, wires: seq<DependencyEdge>, tripNode: NodeId) {
    forall edges, h, cap: nat ::
      SameWires(wires, edges) && SaneBudgets(edges) && TripRun(nodes, h, tripNode) && |h| <= cap ==>
        Believable(edges, h, cap)
  }

  /** That is so if and only if the trip's ancestors form a funnel. */
  lemma VerdictExactIffFunnel(nodes: NodeTable, wires: seq<DependencyEdge>, order: seq<NodeId>, tripNode: NodeId)
    requires TopologicalOrder(wires, order) && WatchesInterlock(nodes, tripNode)
    ensures VerdictExactWhileFitting(nodes, wires, tripNode) <==> Funnel(Live(nodes, wires), tripNode)
  {
    hide Possible, TopologicalOrder, Fork, Newest, TripAt, SameWires, SaneBudgets, Live, Believable, Exact;
    RingVerdictIffFunnel(nodes, wires, order, tripNode);
    if Funnel(Live(nodes, wires), tripNode) {
      forall edges, h, cap: nat |
        SameWires(wires, edges) && SaneBudgets(edges) && TripRun(nodes, h, tripNode) && |h| <= cap
        ensures Believable(edges, h, cap)
      {
        NothingDropped(edges, h, cap);
        assert Exact(edges, Newest(h, cap), h[|h| - 1]);
      }
    } else {
      var r := LiveOrder(nodes, wires, order);
      var m, n, a, b := PickFork(Live(nodes, wires), r, tripNode);
      var edges, h := ForkHides(nodes, wires, r, tripNode, m, n, a, b);
      NothingDropped(edges, h, |h|);
      assert !Believable(edges, h, |h|);
    }
  }

  // ---------------------------------------------------------------- what was dropped, in one run

  /** A lookup that the ring can answer, it answers as the whole run would. */
  lemma {:induction false} RingAgrees(view: seq<StateTransition>, k: nat, node: NodeId, beforeTs: nat)
    requires k <= |view| && LastForNodeBefore(view, node, beforeTs).Some?
    ensures var found := LastForNodeBefore(view, node, beforeTs);
      LastForNodeBefore(view[..k], node, beforeTs) == if found.value in view[..k] then found else None
  {
    if k > 0 {
      assert view[..k][1..] == view[1..][..k - 1] && view[..k] == [view[0]] + view[1..][..k - 1];
      if !(view[0].node == node && view[0].tsNs < beforeTs) {
        RingAgrees(view[1..], k - 1, node, beforeTs);
      }
    }
  }

  lemma RingIsPrefix(h: History, cap: nat)
    requires cap <= |h|
    ensures Newest(h, cap) == Newest(h, |h|)[..cap]
  {
  }

  /** Every trigger of the run's upstream instances is still in the ring. */
  ghost predicate NothingLost(edges: seq<DependencyEdge>, h: History, cap: nat)
    requires h != []
  {
    forall s :: EverUpstream(edges, h, s) ==> s.trigger in Newest(h, cap)
  }

  lemma {:induction false} ChainHeld(edges: seq<DependencyEdge>, h: History, cap: nat, chain: seq<Step>)
    requires h != [] && cap <= |h| && NothingLost(edges, h, cap)
    requires UpstreamChain(edges, Newest(h, |h|), h[|h| - 1], chain)
    ensures UpstreamChain(edges, Newest(h, cap), h[|h| - 1], chain)
  {
    var whole := Newest(h, |h|);
    RingIsPrefix(h, cap);
    forall k | 0 <= k < |chain| ensures Genuine(edges, Newest(h, cap), chain[k]) {
      var s := chain[k];
      assert Genuine(edges, whole, s);
      assert UpstreamChain(edges, whole, h[|h| - 1], chain[..k + 1]) && Last(chain[..k + 1]) == s;
      assert EverUpstream(edges, h, s);
      RingAgrees(whole, cap, s.edge.from, s.effect.tsNs);
    }
  }

  /** On a funnel, a walk over the ring measures the run's whole upstream history if and only if none of its
      triggers has been dropped; the verdict is then right. */
  lemma SeesAllIffNothingLost(nodes: NodeTable, edges: seq<DependencyEdge>, order: seq<NodeId>, h: History, cap: nat)
    requires h != [] && Possible(nodes, h) && TopologicalOrder(Live(nodes, edges), order)
    requires Funnel(Live(nodes, edges), h[|h| - 1].node)
    ensures SeesAll(edges, h, cap) <==> NothingLost(edges, h, cap)
    ensures NothingLost(edges, h, cap) ==> Believable(edges, h, cap)
  {
    hide Possible, TopologicalOrder, Funnel, WalkFromTrip, Newest, CarriedBy, Genuine, Believable;
    var view, trip := Newest(h, cap), h[|h| - 1];
    if NothingLost(edges, h, cap) {
      LiveCarries(nodes, edges, h, cap);
      FunnelIsComplete(Live(nodes, edges), order, edges, view, trip);
      forall s | EverUpstream(edges, h, s) ensures s in WalkFromTrip(edges, view, trip) {
        var chain :| UpstreamChain(edges, Newest(h, |h|), trip, chain) && Last(chain) == s;
        if cap <= |h| { ChainHeld(edges, h, cap, chain); } else { NothingDropped(edges, h, cap); }
        assert Upstream(edges, view, trip, s);
      }
      SeesAllIsBelievable(edges, h, cap);
    }
    WalkIsSound(edges, view, trip);
    forall s | s in WalkFromTrip(edges, view, trip) ensures s.trigger in view {
      GenuineIsRecorded(edges, view, s);
    }
  }

  lemma GenuineIsRecorded(edges: seq<DependencyEdge>, view: seq<StateTransition>, s: Step)
    requires Genuine(edges, view, s)
    ensures s.trigger in view
  {
  }

  // ---------------------------------------------------------------- once something is dropped

  /** A late trip whose only trigger, a report of `m`, has been pushed out by repeated high reports. */
  function LostRun(nodes: NodeTable, m: NodeId, tripNode: NodeId, cap: nat): (h: History)
    ensures |h| == Max(cap + 1, 3)
  {
    var highs := Max(cap + 1, 3) - 2;
    [StateTransition(0, m, 0, High(nodes, m))]
    + seq(highs, i requires 0 <= i < highs => StateTransition(i + 1, tripNode, 1, Some(true)))
    + [StateTransition(highs + 1, tripNode, 50_000_000_000, Some(false))]
  }

  lemma LostRunTrips(nodes: NodeTable, m: NodeId, tripNode: NodeId, cap: nat)
    requires WatchesInterlock(nodes, tripNode) && CanReport(nodes, m) && m != tripNode
    ensures TripRun(nodes, LostRun(nodes, m, tripNode, cap), tripNode)
    ensures forall t :: t in LostRun(nodes, m, tripNode, cap) ==> t.tsNs <= MAX_SANE_WCET_NS
  {
    hide LastLevel;
    var h := LostRun(nodes, m, tripNode, cap);
    TripMeansFall(h, |h| - 1, tripNode);
    assert h[|h| - 2] == StateTransition(|h| - 2, tripNode, 1, Some(true));
    forall i | 0 <= i < |h| ensures Reports(nodes, h[i]) && h[i].seqNo == i && h[i].tsNs <= MAX_SANE_WCET_NS {}
  }

  /** The ring holds reports of the trip node only, so nothing is measured. */
  lemma LostRunUnmeasured(nodes: NodeTable, edges: seq<DependencyEdge>, order: seq<NodeId>, m: NodeId,
                          tripNode: NodeId, cap: nat)
    requires TopologicalOrder(edges, order) && cap > 0
    ensures var h := LostRun(nodes, m, tripNode, cap); WalkFromTrip(edges, Newest(h, cap), h[|h| - 1]) == []
  {
    hide WalkFromTrip;
    var h := LostRun(nodes, m, tripNode, cap);
    var view, trip := Newest(h, cap), h[|h| - 1];
    assert forall t :: t in view ==> t.node == tripNode;
    var log, visited := WalkFacts(edges, view, trip);
    if log != [] {
      FirstStep(edges, view, trip, log);
    }
  }

  /** Yet in the whole run the edge from `m` took fifty seconds. */
  lemma LostStep(nodes: NodeTable, edges: seq<DependencyEdge>, e: DependencyEdge, tripNode: NodeId, cap: nat)
    requires e in edges && e.to == tripNode && e.from != tripNode
    ensures var h := LostRun(nodes, e.from, tripNode, cap);
      EverUpstream(edges, h, Step(e, h[|h| - 1], h[0])) && Step(e, h[|h| - 1], h[0]).Dt() == 50_000_000_000
  {
    var h := LostRun(nodes, e.from, tripNode, cap);
    var view, trip := Newest(h, |h|), h[|h| - 1];
    assert view[|h| - 1] == h[0];
    FoundAt(view, |h| - 1, e.from, trip.tsNs);
    hide LastForNodeBefore, Newest;
    var s := Step(e, trip, h[0]);
    assert UpstreamChain(edges, view, trip, [s]) && Last([s]) == s;
  }

  lemma {:induction false} NothingUpstream(nodes: NodeTable, edges: seq<DependencyEdge>, h: History, s: Step)
    requires h != [] && Possible(nodes, h) && !Fed(nodes, edges, h[|h| - 1].node)
    ensures !EverUpstream(edges, h, s)
  {
    RecordedCanReport(nodes, h, |h|);
    hide Newest;
    if EverUpstream(edges, h, s) {
      var chain :| UpstreamChain(edges, Newest(h, |h|), h[|h| - 1], chain) && Last(chain) == s;
      FirstOfChain(edges, Newest(h, |h|), h[|h| - 1], chain);
    }
  }

  lemma FirstOfChain(edges: seq<DependencyEdge>, view: seq<StateTransition>, trip: StateTransition, chain: seq<Step>)
    requires UpstreamChain(edges, view, trip, chain)
    ensures Genuine(edges, view, chain[0]) && chain[0].effect == trip && chain[0].trigger in view
  {
  }

  /** With a ring of `cap` transitions, for runs of up to `bound`. */
  ghost predicate CompleteUpTo(nodes: NodeTable, edges: seq<DependencyEdge>, tripNode: NodeId, cap: nat, bound: nat) {
    forall h :: TripRun(nodes, h, tripNode) && |h| <= bound ==> SeesAll(edges, h, cap)
  }

  ghost predicate VerdictExactUpTo(nodes: NodeTable, wires: seq<DependencyEdge>, tripNode: NodeId,
                                   cap: nat, bound: nat) {
    forall edges, h ::
      SameWires(wires, edges) && SaneBudgets(edges) && TripRun(nodes, h, tripNode) && |h| <= bound ==>
        Believable(edges, h, cap)
  }

  /** As soon as runs may outgrow the ring by one transition, the walk sees everything if and only if there is
      nothing to see: no edge leads into the trip node from a node that can report. */
  lemma CompleteIffUnfed(nodes: NodeTable, edges: seq<DependencyEdge>, order: seq<NodeId>, tripNode: NodeId,
                         cap: nat, bound: nat)
    requires TopologicalOrder(edges, order) && WatchesInterlock(nodes, tripNode) && cap > 0 && bound > cap && bound >= 3
    ensures CompleteUpTo(nodes, edges, tripNode, cap, bound) <==> !Fed(nodes, edges, tripNode)
  {
    hide Possible, TopologicalOrder, WalkFromTrip, EverUpstream, LostRun, TripAt, Newest;
    if Fed(nodes, edges, tripNode) {
      var e :| e in edges && e.to == tripNode && CanReport(nodes, e.from);
      NoSelfLoop(edges, order, e);
      var h := LostRun(nodes, e.from, tripNode, cap);
      LostRunTrips(nodes, e.from, tripNode, cap);
      LostRunUnmeasured(nodes, edges, order, e.from, tripNode, cap);
      LostStep(nodes, edges, e, tripNode, cap);
      assert !SeesAll(edges, h, cap);
    } else {
      forall h | TripRun(nodes, h, tripNode) && |h| <= bound ensures SeesAll(edges, h, cap) {
        TripRunNonEmpty(nodes, h, tripNode);
        forall s { NothingUpstream(nodes, edges, h, s); }
      }
    }
  }

  lemma NoSelfLoop(edges: seq<DependencyEdge>, order: seq<NodeId>, e: DependencyEdge)
    requires TopologicalOrder(edges, order) && e in edges
    ensures e.from != e.to
  {
  }

  /** And its verdict is exact under the same condition: on manifests that never attribute anything. */
  lemma VerdictExactIffUnfed(nodes: NodeTable, wires: seq<DependencyEdge>, order: seq<NodeId>, tripNode: NodeId,
                             cap: nat, bound: nat)
    requires TopologicalOrder(wires, order) && WatchesInterlock(nodes, tripNode) && cap > 0 && bound > cap && bound >= 3
    ensures VerdictExactUpTo(nodes, wires, tripNode, cap, bound) <==> !Fed(nodes, wires, tripNode)
  {
    hide Possible, TopologicalOrder, Believable, LostRun, TripAt, SameWires, SaneBudgets;
    if Fed(nodes, wires, tripNode) {
      var e :| e in wires && e.to == tripNode && CanReport(nodes, e.from);
      var edges := LostVerdict(nodes, wires, order, e, cap);
      assert !Believable(edges, LostRun(nodes, e.from, tripNode, cap), cap);
    } else {
      forall edges, h |
        SameWires(wires, edges) && SaneBudgets(edges) && TripRun(nodes, h, tripNode) && |h| <= bound
        ensures Believable(edges, h, cap)
      {
        UnfedIsBelievable(nodes, wires, edges, h, cap, tripNode);
      }
    }
  }

  lemma UnfedIsBelievable(nodes: NodeTable, wires: seq<DependencyEdge>, edges: seq<DependencyEdge>, h: History,
                          cap: nat, tripNode: NodeId)
    requires SameWires(wires, edges) && TripRun(nodes, h, tripNode) && !Fed(nodes, wires, tripNode)
    ensures Believable(edges, h, cap)
  {
    hide Possible, Attribution, EverUpstream, Newest;
    TripRunNonEmpty(nodes, h, tripNode);
    SameWiresBothWays(wires, edges);
    forall e | e in edges && e.to == tripNode ensures !CanReport(nodes, e.from) {
      assert HasEdge(wires, e.from, e.to);
    }
    forall s { NothingUpstream(nodes, edges, h, s); }
  }

  /** For any ring size and any edge from a reporting node into the trip node, some sane budgets and a run one
      transition longer than the ring hide a violation of fifty seconds. */
  lemma LostVerdict(nodes: NodeTable, wires: seq<DependencyEdge>, order: seq<NodeId>, e: DependencyEdge, cap: nat)
    returns (edges: seq<DependencyEdge>)
    requires TopologicalOrder(wires, order) && WatchesInterlock(nodes, e.to) && cap > 0
    requires e in wires && CanReport(nodes, e.from)
    ensures SameWires(wires, edges) && SaneBudgets(edges) && TopologicalOrder(edges, order)
    ensures var h := LostRun(nodes, e.from, e.to, cap);
      TripRun(nodes, h, e.to) && (forall t :: t in h ==> t.tsNs <= MAX_SANE_WCET_NS) && !Believable(edges, h, cap)
  {
    hide TopologicalOrder, WalkFromTrip, Attribution, EverUpstream, LostRun, TripRun, Newest;
    NoSelfLoop(wires, order, e);
    edges := Budgeted(wires, e.from, e.to, 1_000_000);
    SameWiresBothWays(wires, edges);
    OrderCarriesOver(wires, edges, order);
    var h := LostRun(nodes, e.from, e.to, cap);
    LostRunTrips(nodes, e.from, e.to, cap);
    LostRunUnmeasured(nodes, edges, order, e.from, e.to, cap);
    UnattributedIffWithinBudget(edges, Newest(h, cap), h[|h| - 1]);
    var e' :| e' in edges && e'.from == e.from && e'.to == e.to;
    LostStep(nodes, edges, e', e.to, cap);
    assert Step(e', h[|h| - 1], h[0]).OverBudget();
  }
}
