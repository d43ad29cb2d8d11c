/** What an attribution means: chains, response times, the pigeonhole bound and budget changes. */
module AttributionTheorems {
  import opened Basics
  import opened CausalTypes
  import opened BackwardWalk
  import opened Ranking

  /** A chain the walk followed: it starts at the trip, and each effect is the previous trigger. */
  ghost predicate IsChain(log: seq<Step>, trip: StateTransition, chain: seq<Step>) {
    && chain != []
    && chain[0].effect == trip
    && (forall k :: 0 <= k < |chain| ==> chain[k] in log)
    && (forall k :: 0 < k < |chain| ==> chain[k].effect == chain[k - 1].trigger)
  }

  function Last(chain: seq<Step>): Step
    requires chain != []
  {
    chain[|chain| - 1]
  }

  function SumDt(chain: seq<Step>): nat {
    if chain == [] then 0 else SumDt(chain[..|chain| - 1]) + Last(chain).Dt()
  }

  function SumBudget(chain: seq<Step>): nat {
    if chain == [] then 0 else SumBudget(chain[..|chain| - 1]) + Last(chain).edge.wcetNs
  }

  lemma ChainPrefix(log: seq<Step>, trip: StateTransition, chain: seq<Step>)
    requires IsChain(log, trip, chain) && |chain| > 1
    ensures IsChain(log, trip, chain[..|chain| - 1])
  {
  }

  /** Every step the walk measured ends a chain that leads back to the trip. */
  lemma StepEndsChain(log: seq<Step>, trip: StateTransition, i: nat) returns (chain: seq<Step>)
    requires Grounded(log, trip) && i < |log|
    ensures IsChain(log, trip, chain) && Last(chain) == log[i]
    decreases i
  {
    assert Known(log[..i], trip, log[i].effect);
    if log[i].effect == trip {
      chain := [log[i]];
    } else {
      var j :| 0 <= j < i && log[..i][j].trigger == log[i].effect;
      var upto := StepEndsChain(log, trip, j);
      chain := upto + [log[i]];
    }
  }

  /** The gaps along a chain add up to its end-to-end latency. */
  lemma {:induction false} ChainTelescopes(edges: seq<DependencyEdge>, view: seq<StateTransition>,
                                           trip: StateTransition,
                                           log: seq<Step>, chain: seq<Step>)
    requires Sound(edges, view, trip, log) && IsChain(log, trip, chain)
    ensures Last(chain).trigger.tsNs < trip.tsNs
    ensures SumDt(chain) == trip.tsNs - Last(chain).trigger.tsNs
  {
    var last := Last(chain);
    assert last in log;
    if |chain| == 1 {
      assert SumDt(chain[..0]) == 0;
    } else {
      ChainPrefix(log, trip, chain);
      ChainTelescopes(edges, view, trip, log, chain[..|chain| - 1]);
    }
  }

  /** Some step overruns at least as much, relative to its budget, as the chain as a whole does. */
  lemma {:induction false} MediantWitness(chain: seq<Step>, latency: int, budget: nat) returns (k: nat)
    requires chain != []
    requires (SumDt(chain) - SumBudget(chain)) * budget >= (latency - budget) * SumBudget(chain)
    ensures k < |chain|
    ensures (chain[k].Dt() as int - chain[k].edge.wcetNs) * budget >= (latency - budget) * chain[k].edge.wcetNs
  {
    var init, last := chain[..|chain| - 1], Last(chain);
    var excess, w := last.Dt() as int - last.edge.wcetNs, last.edge.wcetNs;
    if excess * budget >= (latency - budget) * w {
      k := |chain| - 1;
    } else {
      var restExcess, restBudget := SumDt(init) - SumBudget(init), SumBudget(init);
      assert (restExcess + excess) * budget == restExcess * budget + excess * budget;
      assert (latency - budget) * (restBudget + w) == (latency - budget) * restBudget + (latency - budget) * w;
      k := MediantWitness(init, latency, budget);
    }
  }

  lemma RankedAreCandidates(edges: seq<DependencyEdge>, view: seq<StateTransition>, trip: StateTransition)
    ensures var ranked := Attribution(edges, view, trip).rankedCatalysts;
      var log := WalkFromTrip(edges, view, trip);
      && (forall c :: c in ranked <==> exists s :: s in log && s.OverBudget() && CandidateOf(s) == c)
      && AllExceed(ranked) && MostSevereFirst(ranked)
  {
    var log := WalkFromTrip(edges, view, trip);
    var cs, ranked := Candidates(log), Attribution(edges, view, trip).rankedCatalysts;
    CandidatesExact(log);
    CandidatesExceed(log);
    RankOrders(cs);
    forall c ensures c in ranked <==> c in cs {
      assert c in ranked <==> c in multiset(ranked);
      assert c in cs <==> c in multiset(cs);
    }
  }

  // ---------------------------------------------------------------- the accusation itself

  /** What a candidate claims is so: a declared edge, between recorded instances of its own two ends, the trigger
      being the one the lookup finds, and a gap between their stamps above the edge's own budget. */
  ghost predicate Accuses(edges: seq<DependencyEdge>, view: seq<StateTransition>, trip: StateTransition,
                          c: CandidateCatalyst) {
    && c.edge in edges
    && c.effect.node == c.edge.to && c.trigger.node == c.edge.from
    && (c.effect == trip || c.effect in view)
    && LastForNodeBefore(view, c.edge.from, c.effect.tsNs) == Some(c.trigger)
    && c.trigger.tsNs < c.effect.tsNs <= trip.tsNs
    && c.observedDtNs == c.effect.tsNs - c.trigger.tsNs
    && c.wcetNs == c.edge.wcetNs && c.observedDtNs > c.wcetNs
  }

  /** The candidate carries the fields of this measured step. */
  ghost predicate Names(c: CandidateCatalyst, s: Step) {
    && c.edge == s.edge && c.effect == s.effect && c.trigger == s.trigger
    && c.observedDtNs as int == s.effect.tsNs - s.trigger.tsNs && c.wcetNs == s.edge.wcetNs
  }

  /** How many measured steps took longer than their budget. */
  function LateSteps(log: seq<Step>): nat {
    if log == [] then 0
    else
      LateSteps(log[..|log| - 1]) + if Late(log[|log| - 1]) then 1 else 0
  }

  /** `a`'s overrun, relative to its budget, is at least `b`'s. */
  ghost predicate OverrunsAtLeast(a: CandidateCatalyst, b: CandidateCatalyst) {
    (a.observedDtNs as int - a.edge.wcetNs) * b.edge.wcetNs >= (b.observedDtNs as int - b.edge.wcetNs) * a.edge.wcetNs
  }

  /** The step took longer than its edge's budget. */
  predicate Late(s: Step) {
    s.effect.tsNs - s.trigger.tsNs > s.edge.wcetNs as int
  }

  /** The ranking names every late step of the walk and nothing else, the largest relative overrun first. */
  ghost predicate Findings(edges: seq<DependencyEdge>, view: seq<StateTransition>, trip: StateTransition,
                           ranked: seq<CandidateCatalyst>) {
    var log := WalkFromTrip(edges, view, trip);
    && (forall c :: c in ranked ==> Accuses(edges, view, trip, c) && exists s :: s in log && Names(c, s))
    && (forall s :: s in log && Late(s) ==> exists c :: c in ranked && Names(c, s))
    && |ranked| == LateSteps(log)
    && (forall i, j :: 0 <= i < j < |ranked| ==> OverrunsAtLeast(ranked[i], ranked[j]))
  }

  lemma {:induction false} CandidatesCount(log: seq<Step>)
    requires forall s :: s in log ==> s.trigger.tsNs <= s.effect.tsNs
    ensures |Candidates(log)| == LateSteps(log)
  {
    if log != [] {
      CandidatesCount(log[..|log| - 1]);
      assert log[|log| - 1] in log;
    }
  }

  lemma StepsAreOrdered(edges: seq<DependencyEdge>, view: seq<StateTransition>, trip: StateTransition, s: Step)
    requires s in WalkFromTrip(edges, view, trip)
    ensures s.trigger.tsNs < s.effect.tsNs <= trip.tsNs && s.trigger.node == s.edge.from && s.effect.node == s.edge.to
    ensures s.edge in edges && LastForNodeBefore(view, s.edge.from, s.effect.tsNs) == Some(s.trigger)
    ensures s.effect == trip || s.effect in view
  {
    hide WalkFromTrip;
    var log := WalkFromTrip(edges, view, trip);
    WalkIsSound(edges, view, trip);
    assert Genuine(edges, view, s);
    var i :| 0 <= i < |log| && log[i] == s;
    assert Known(log[..i], trip, s.effect);
    if s.effect != trip {
      var j :| 0 <= j < i && log[..i][j].trigger == s.effect;
      assert log[j] in log && Genuine(edges, view, log[j]);
    }
  }

  lemma CandidateAccuses(edges: seq<DependencyEdge>, view: seq<StateTransition>, trip: StateTransition, s: Step)
    requires s in WalkFromTrip(edges, view, trip)
    ensures s.OverBudget() <==> Late(s)
    ensures Late(s) ==> Accuses(edges, view, trip, CandidateOf(s)) && Names(CandidateOf(s), s)
  {
    StepsAreOrdered(edges, view, trip, s);
    hide WalkFromTrip, LastForNodeBefore;
  }

  lemma RankedCount(edges: seq<DependencyEdge>, view: seq<StateTransition>, trip: StateTransition)
    ensures |Attribution(edges, view, trip).rankedCatalysts| == LateSteps(WalkFromTrip(edges, view, trip))
  {
    var log := WalkFromTrip(edges, view, trip);
    hide WalkFromTrip;
    forall s | s in log ensures s.trigger.tsNs <= s.effect.tsNs { StepsAreOrdered(edges, view, trip, s); }
    CandidatesCount(log);
    assert |multiset(Rank(Candidates(log)))| == |multiset(Candidates(log))|;
  }

  /** What the analysis of a trip reports. */
  lemma AttributionFindings(edges: seq<DependencyEdge>, view: seq<StateTransition>, trip: StateTransition)
    ensures Attribution(edges, view, trip).tripEvent == trip
    ensures Findings(edges, view, trip, Attribution(edges, view, trip).rankedCatalysts)
  {
    hide WalkFromTrip, LastForNodeBefore, Attribution, CandidateOf, Accuses, Names, Late, OverrunsAtLeast, LateSteps,
      Step.OverBudget, AtLeastAsSevere, MostSevereFirst, AllExceed;
    TripIsNamed(edges, view, trip);
    var log := WalkFromTrip(edges, view, trip);
    var ranked := Attribution(edges, view, trip).rankedCatalysts;
    RankedAreCandidates(edges, view, trip);
    RankedCount(edges, view, trip);
    forall s | s in log
      ensures s.OverBudget() <==> Late(s)
      ensures Late(s) ==> Accuses(edges, view, trip, CandidateOf(s)) && Names(CandidateOf(s), s)
    {
      CandidateAccuses(edges, view, trip, s);
    }
    forall i, j | 0 <= i < j < |ranked| ensures OverrunsAtLeast(ranked[i], ranked[j]) {
      assert ranked[i] in ranked && ranked[j] in ranked;
      InOrder(ranked, i, j);
      SevereMeansOverrun(edges, view, trip, ranked[i], ranked[j]);
    }
  }

  lemma TripIsNamed(edges: seq<DependencyEdge>, view: seq<StateTransition>, trip: StateTransition)
    ensures Attribution(edges, view, trip).tripEvent == trip
  {
    hide WalkFromTrip;
  }

  lemma InOrder(ranked: seq<CandidateCatalyst>, i: nat, j: nat)
    requires MostSevereFirst(ranked) && i < j < |ranked|
    ensures AtLeastAsSevere(ranked[i], ranked[j])
  {
    hide AtLeastAsSevere;
  }

  lemma SevereMeansOverrun(edges: seq<DependencyEdge>, view: seq<StateTransition>, trip: StateTransition,
                           a: CandidateCatalyst, b: CandidateCatalyst)
    requires Accuses(edges, view, trip, a) && Accuses(edges, view, trip, b) && AtLeastAsSevere(a, b)
    ensures OverrunsAtLeast(a, b)
  {
  }

  /** A trip is left unattributed exactly when every edge instance the walk measured kept its budget. */
  lemma UnattributedIffWithinBudget(edges: seq<DependencyEdge>, view: seq<StateTransition>, trip: StateTransition)
    ensures Attribution(edges, view, trip).rankedCatalysts == [] <==>
      forall s :: s in WalkFromTrip(edges, view, trip) ==> !s.OverBudget()
  {
    hide Attribution, WalkFromTrip;
    RankedAreCandidates(edges, view, trip);
    var ranked := Attribution(edges, view, trip).rankedCatalysts;
    var log := WalkFromTrip(edges, view, trip);
    if s :| s in log && s.OverBudget() {
      assert CandidateOf(s) in ranked;
    }
    if ranked != [] {
      assert ranked[0] in ranked;
    }
  }

  /** The top of the ranking is at least as severe as every over-budget step of the walk. */
  lemma TopDominates(edges: seq<DependencyEdge>, view: seq<StateTransition>, trip: StateTransition, s: Step)
    requires s in WalkFromTrip(edges, view, trip) && s.OverBudget()
    ensures var ranked := Attribution(edges, view, trip).rankedCatalysts;
      ranked != [] && ranked[0].Exceeds() && AtLeastAsSevere(ranked[0], CandidateOf(s))
  {
    hide Attribution, WalkFromTrip;
    RankedAreCandidates(edges, view, trip);
    var ranked := Attribution(edges, view, trip).rankedCatalysts;
    assert CandidateOf(s) in ranked;
    var j :| 0 <= j < |ranked| && ranked[j] == CandidateOf(s);
    assert ranked[0] in ranked;
    if j > 0 { assert AtLeastAsSevere(ranked[0], ranked[j]); }
  }

  lemma TopDominatesFraction(edges: seq<DependencyEdge>, view: seq<StateTransition>, trip: StateTransition, s: Step,
                             excess: int, budget: nat)
    requires s in WalkFromTrip(edges, view, trip) && s.OverBudget()
    requires (s.Dt() as int - s.edge.wcetNs) * budget >= excess * s.edge.wcetNs
    ensures var ranked := Attribution(edges, view, trip).rankedCatalysts;
      ranked != [] && ranked[0].Excess() * budget >= excess * ranked[0].wcetNs
  {
    hide Attribution, WalkFromTrip;
    TopDominates(edges, view, trip, s);
    var top, c := Attribution(edges, view, trip).rankedCatalysts[0], CandidateOf(s);
    FractionsCompose(top.Excess(), top.wcetNs, c.Excess(), c.wcetNs, excess, budget);
  }

  /** A positive gap that overruns at least as much as a positive chain excess is over its budget. */
  lemma WitnessIsOverBudget(dt: int, w: nat, excess: int, budget: nat)
    requires dt > 0 && excess > 0 && (dt - w) * budget >= excess * w
    ensures dt > w
  {
    if w > 0 && dt <= w {
      assert excess * w > 0;
      MulLe(dt - w, 0, budget);
    }
  }

  /** A followed chain slower than its budgets holds a step over its budget, overrunning at least as much. */
  lemma SlowChainHasSlowStep(edges: seq<DependencyEdge>, view: seq<StateTransition>, trip: StateTransition,
                             log: seq<Step>, chain: seq<Step>)
    returns (s: Step)
    requires Sound(edges, view, trip, log) && IsChain(log, trip, chain)
    requires SumDt(chain) > SumBudget(chain)
    ensures s in log && s.OverBudget()
    ensures (s.Dt() as int - s.edge.wcetNs) * SumBudget(chain) >= (SumDt(chain) - SumBudget(chain)) * s.edge.wcetNs
  {
    var k := MediantWitness(chain, SumDt(chain), SumBudget(chain));
    s := chain[k];
    assert s in log;
    PoppedInstance(edges, view, trip, s);
    WitnessIsOverBudget(s.Dt(), s.edge.wcetNs, SumDt(chain) - SumBudget(chain), SumBudget(chain));
  }

  lemma WalkIsSound(edges: seq<DependencyEdge>, view: seq<StateTransition>, trip: StateTransition)
    ensures Sound(edges, view, trip, WalkFromTrip(edges, view, trip))
    ensures Grounded(WalkFromTrip(edges, view, trip), trip)
  {
    var log, visited := WalkFacts(edges, view, trip);
  }

  /** Pigeonhole: if a followed chain takes longer than its budgets together, the trip is attributed,
      and the top-ranked overrun is at least (latency - budget) / budget of that chain. */
  lemma SlowChainIsAttributed(edges: seq<DependencyEdge>, view: seq<StateTransition>, trip: StateTransition,
                              chain: seq<Step>)
    requires IsChain(WalkFromTrip(edges, view, trip), trip, chain)
    requires trip.tsNs - Last(chain).trigger.tsNs > SumBudget(chain)
    ensures var ranked := Attribution(edges, view, trip).rankedCatalysts;
      var latency, budget := trip.tsNs - Last(chain).trigger.tsNs, SumBudget(chain);
      ranked != [] && ranked[0].Excess() * budget >= (latency - budget) * ranked[0].wcetNs
  {
    hide Attribution, WalkFromTrip;
    var log := WalkFromTrip(edges, view, trip);
    WalkIsSound(edges, view, trip);
    ChainTelescopes(edges, view, trip, log, chain);
    var s := SlowChainHasSlowStep(edges, view, trip, log, chain);
    TopDominatesFraction(edges, view, trip, s, SumDt(chain) - SumBudget(chain), SumBudget(chain));
  }

  /** An unattributed trip bounds the latency of every chain the walk followed by its summed budgets. */
  lemma UnattributedBoundsLatency(edges: seq<DependencyEdge>, view: seq<StateTransition>, trip: StateTransition,
                                  chain: seq<Step>)
    requires Attribution(edges, view, trip).rankedCatalysts == []
    requires IsChain(WalkFromTrip(edges, view, trip), trip, chain)
    ensures trip.tsNs - Last(chain).trigger.tsNs <= SumBudget(chain)
  {
    if trip.tsNs - Last(chain).trigger.tsNs > SumBudget(chain) {
      SlowChainIsAttributed(edges, view, trip, chain);
    }
  }

  /** The root catalyst ends a followed chain, and the time from its trigger to the trip is exactly the
      sum of that chain's gaps. */
  lemma RootEndsContiguousChain(edges: seq<DependencyEdge>, view: seq<StateTransition>, trip: StateTransition)
    returns (chain: seq<Step>)
    requires Attribution(edges, view, trip).rankedCatalysts != []
    ensures var root := Attribution(edges, view, trip).rankedCatalysts[0];
      && IsChain(WalkFromTrip(edges, view, trip), trip, chain)
      && CandidateOf(Last(chain)) == root
      && root.trigger.tsNs < trip.tsNs
      && SaturatingSub(trip.tsNs, root.trigger.tsNs) == SumDt(chain)
  {
    hide Attribution, WalkFromTrip;
    var log := WalkFromTrip(edges, view, trip);
    WalkIsSound(edges, view, trip);
    RankedAreCandidates(edges, view, trip);
    var ranked := Attribution(edges, view, trip).rankedCatalysts;
    assert ranked[0] in ranked;
    var s :| s in log && s.OverBudget() && CandidateOf(s) == ranked[0];
    var i :| 0 <= i < |log| && log[i] == s;
    chain := StepEndsChain(log, trip, i);
    ChainTelescopes(edges, view, trip, log, chain);
  }

  // ---------------------------------------------------------------- bounded output

  function EdgesOf(log: seq<Step>): (r: seq<DependencyEdge>)
    ensures |r| == |log| && forall i :: 0 <= i < |log| ==> r[i] == log[i].edge
  {
    seq(|log|, i requires 0 <= i < |log| => log[i].edge)
  }

  /** The edge entries ending at a node not yet visited. */
  function Unused(edges: seq<DependencyEdge>, visited: set<NodeId>): seq<DependencyEdge> {
    if edges == [] then []
    else
      Unused(edges[..|edges| - 1], visited)
      + if edges[|edges| - 1].to in visited then [] else [edges[|edges| - 1]]
  }

  lemma UnusedSplits(edges: seq<DependencyEdge>, visited: set<NodeId>, n: NodeId)
    requires n !in visited
    ensures multiset(Unused(edges, visited)) == multiset(Unused(edges, visited + {n})) + multiset(Incoming(edges, n))
  {
  }

  lemma UnusedOfNone(edges: seq<DependencyEdge>)
    ensures Unused(edges, {}) == edges
  {
    if edges != [] {
      UnusedOfNone(edges[..|edges| - 1]);
    }
  }

  lemma EdgesOfAppend(a: seq<Step>, b: seq<Step>)
    ensures EdgesOf(a + b) == EdgesOf(a) + EdgesOf(b)
  {
  }

  lemma ExpandUsesEachOnce(view: seq<StateTransition>, trip: StateTransition, node: NodeId, ts: u64,
                           incoming: seq<DependencyEdge>)
    ensures multiset(EdgesOf(Expand(view, trip, node, ts, incoming))) <= multiset(incoming)
  {
    if incoming != [] {
      var init, last := incoming[..|incoming| - 1], incoming[|incoming| - 1];
      assert incoming == init + [last];
      ExpandUsesEachOnce(view, trip, node, ts, init);
      EdgesOfAppend(Expand(view, trip, node, ts, init), Measure(view, trip, node, ts, last));
    }
  }

  lemma {:induction false} WalkUsesEachOnce(edges: seq<DependencyEdge>, view: seq<StateTransition>,
                                            trip: StateTransition,
                                            frontier: seq<Entry>, visited: set<NodeId>)
    ensures multiset(EdgesOf(Walk(edges, view, trip, frontier, visited))) <= multiset(Unused(edges, visited))
    decreases Heads(edges) - visited, |frontier|
  {
    if frontier != [] {
      var rest, entry := frontier[..|frontier| - 1], frontier[|frontier| - 1];
      assert frontier == rest + [entry];
      hide Walk, Expand, Incoming, Heads, Pushes, Unused;
      WalkPops(edges, view, trip, rest, entry, visited);
      if entry.node in visited {
        WalkUsesEachOnce(edges, view, trip, rest, visited);
      } else {
        var steps := Expand(view, trip, entry.node, entry.ts, Incoming(edges, entry.node));
        FreshNodeDecreases(edges, view, trip, entry, visited);
        WalkUsesEachOnce(edges, view, trip, rest + Pushes(steps), visited + {entry.node});
        ExpandUsesEachOnce(view, trip, entry.node, entry.ts, Incoming(edges, entry.node));
        UnusedSplits(edges, visited, entry.node);
        EdgesOfAppend(steps, Walk(edges, view, trip, rest + Pushes(steps), visited + {entry.node}));
      }
    }
  }

  /** On every graph, cyclic ones included, each declared edge entry is measured at most once, so there
      are at most as many steps (and candidates) as edges. */
  lemma EachEdgeMeasuredOnce(edges: seq<DependencyEdge>, view: seq<StateTransition>, trip: StateTransition)
    ensures multiset(EdgesOf(WalkFromTrip(edges, view, trip))) <= multiset(edges)
    ensures |WalkFromTrip(edges, view, trip)| <= |edges|
    ensures |Attribution(edges, view, trip).rankedCatalysts| <= |edges|
  {
    var log := WalkFromTrip(edges, view, trip);
    WalkUsesEachOnce(edges, view, trip, [Entry(trip.node, trip.tsNs)], {});
    UnusedOfNone(edges);
    assert |multiset(EdgesOf(log))| <= |multiset(edges)| by {
      assert multiset(edges) == multiset(EdgesOf(log)) + (multiset(edges) - multiset(EdgesOf(log)));
    }
    var cs := Candidates(log);
    assert |multiset(Rank(cs))| == |multiset(cs)|;
  }

  // ---------------------------------------------------------------- changing the budgets

  predicate SameWire(e: DependencyEdge, e': DependencyEdge) {
    e.from == e'.from && e.to == e'.to && e.wcetNs <= e'.wcetNs
  }

  /** `loose` is `tight` with budgets raised pointwise. */
  predicate Loosened(tight: seq<DependencyEdge>, loose: seq<DependencyEdge>) {
    |tight| == |loose| && forall i :: 0 <= i < |tight| ==> SameWire(tight[i], loose[i])
  }

  predicate SameWalk(a: seq<Step>, b: seq<Step>) {
    && |a| == |b|
    && forall i :: 0 <= i < |a| ==>
      SameWire(a[i].edge, b[i].edge) && a[i].effect == b[i].effect && a[i].trigger == b[i].trigger
  }

  lemma {:induction false} IncomingLoosened(tight: seq<DependencyEdge>, loose: seq<DependencyEdge>, n: NodeId)
    requires Loosened(tight, loose)
    ensures Loosened(Incoming(tight, n), Incoming(loose, n))
  {
    if tight != [] {
      var k := |tight| - 1;
      IncomingLoosened(tight[..k], loose[..k], n);
      assert SameWire(tight[k], loose[k]);
    }
  }

  lemma {:induction false} ExpandIgnoresBudgets(view: seq<StateTransition>, trip: StateTransition, node: NodeId,
                                                ts: u64,
                                                tight: seq<DependencyEdge>, loose: seq<DependencyEdge>)
    requires Loosened(tight, loose)
    ensures SameWalk(Expand(view, trip, node, ts, tight), Expand(view, trip, node, ts, loose))
  {
    if tight != [] {
      ExpandIgnoresBudgets(view, trip, node, ts, tight[..|tight| - 1], loose[..|loose| - 1]);
    }
  }

  lemma SamePushes(a: seq<Step>, b: seq<Step>)
    requires SameWalk(a, b)
    ensures Pushes(a) == Pushes(b)
  {
  }

  lemma SameWalkAppend(a: seq<Step>, b: seq<Step>, c: seq<Step>, d: seq<Step>)
    requires SameWalk(a, b) && SameWalk(c, d)
    ensures SameWalk(a + c, b + d)
  {
  }

  lemma {:induction false} WalkIgnoresBudgets(tight: seq<DependencyEdge>, loose: seq<DependencyEdge>,
                                              view: seq<StateTransition>,
                                              trip: StateTransition, frontier: seq<Entry>, visited: set<NodeId>)
    requires Loosened(tight, loose)
    ensures SameWalk(Walk(tight, view, trip, frontier, visited), Walk(loose, view, trip, frontier, visited))
    decreases Heads(tight) - visited, |frontier|
  {
    if frontier != [] {
      var rest, entry := frontier[..|frontier| - 1], frontier[|frontier| - 1];
      assert frontier == rest + [entry];
      hide Walk, Expand, Incoming, Heads, Pushes, Loosened, SameWalk;
      WalkPops(tight, view, trip, rest, entry, visited);
      WalkPops(loose, view, trip, rest, entry, visited);
      if entry.node in visited {
        WalkIgnoresBudgets(tight, loose, view, trip, rest, visited);
      } else {
        var steps := Expand(view, trip, entry.node, entry.ts, Incoming(tight, entry.node));
        var steps' := Expand(view, trip, entry.node, entry.ts, Incoming(loose, entry.node));
        IncomingLoosened(tight, loose, entry.node);
        ExpandIgnoresBudgets(view, trip, entry.node, entry.ts, Incoming(tight, entry.node),
          Incoming(loose, entry.node));
        SamePushes(steps, steps');
        FreshNodeDecreases(tight, view, trip, entry, visited);
        var next := rest + Pushes(steps);
        WalkIgnoresBudgets(tight, loose, view, trip, next, visited + {entry.node});
        SameWalkAppend(steps, steps', Walk(tight, view, trip, next, visited + {entry.node}),
          Walk(loose, view, trip, next, visited + {entry.node}));
      }
    }
  }

  lemma WalkFromTripIgnoresBudgets(tight: seq<DependencyEdge>, loose: seq<DependencyEdge>, view: seq<StateTransition>,
                                   trip: StateTransition)
    requires Loosened(tight, loose)
    ensures SameWalk(WalkFromTrip(tight, view, trip), WalkFromTrip(loose, view, trip))
  {
    hide Walk, SameWalk, Loosened;
    WalkIgnoresBudgets(tight, loose, view, trip, [Entry(trip.node, trip.tsNs)], {});
  }

  /** The same violation, possibly under another budget. */
  predicate SameInstance(a: CandidateCatalyst, b: CandidateCatalyst) {
    SameWire(a.edge, b.edge) && a.trigger == b.trigger && a.effect == b.effect && a.observedDtNs == b.observedDtNs
  }

  lemma TighterIsWorse(b: CandidateCatalyst, c: CandidateCatalyst)
    requires b.observedDtNs == c.observedDtNs && b.wcetNs <= c.wcetNs
    ensures AtLeastAsSevere(b, c)
  {
    MulLe(b.wcetNs, c.wcetNs, b.observedDtNs);
    assert b.Excess() * c.wcetNs == b.observedDtNs * c.wcetNs - b.wcetNs * c.wcetNs;
    assert c.Excess() * b.wcetNs == c.observedDtNs * b.wcetNs - c.wcetNs * b.wcetNs;
  }

  /** Raising budgets on the same graph and history never adds a candidate, never attributes a trip that
      was unattributed, and never raises the top overrun. */
  lemma RaisingBudgetsNeverAccuses(tight: seq<DependencyEdge>, loose: seq<DependencyEdge>, view: seq<StateTransition>,
                                   trip: StateTransition)
    requires Loosened(tight, loose)
    ensures var before := Attribution(tight, view, trip).rankedCatalysts;
      var after := Attribution(loose, view, trip).rankedCatalysts;
      && (forall c :: c in after ==> exists b :: b in before && SameInstance(b, c))
      && (after != [] ==> before != [] && AtLeastAsSevere(before[0], after[0]))
  {
    hide Attribution, WalkFromTrip, Loosened;
    var log, log' := WalkFromTrip(tight, view, trip), WalkFromTrip(loose, view, trip);
    var before, after := Attribution(tight, view, trip).rankedCatalysts, Attribution(loose, view, trip).rankedCatalysts;
    WalkFromTripIgnoresBudgets(tight, loose, view, trip);
    RankedAreCandidates(tight, view, trip);
    RankedAreCandidates(loose, view, trip);
    forall c | c in after
      ensures exists b :: b in before && SameInstance(b, c)
    {
      var s' :| s' in log' && s'.OverBudget() && CandidateOf(s') == c;
      var i :| 0 <= i < |log'| && log'[i] == s';
      assert log[i] in log && CandidateOf(log[i]) in before;
    }
    if after != [] {
      var c := after[0];
      assert c in after;
      var s' :| s' in log' && s'.OverBudget() && CandidateOf(s') == c;
      var i :| 0 <= i < |log'| && log'[i] == s';
      assert log[i] in log;
      TopDominates(tight, view, trip, log[i]);
      TighterIsWorse(CandidateOf(log[i]), c);
      SeverityTransitive(before[0], CandidateOf(log[i]), c);
    }
  }
}
