/** The backward walk as a function of the ring's newest-first view, and what it always keeps. */
module BackwardWalk {
  import opened Basics
  import opened CausalTypes

  /** Most recently recorded transition of `node` stamped strictly before `beforeTs`. */
  function LastForNodeBefore(view: seq<StateTransition>, node: NodeId, beforeTs: nat): (r: Option<StateTransition>)
    ensures r.Some? ==> r.value in view && r.value.node == node && r.value.tsNs < beforeTs
    ensures r.None? ==> forall t :: t in view && t.node == node ==> t.tsNs >= beforeTs
  {
    if view == [] then None
    else if view[0].node == node && view[0].tsNs < beforeTs then Some(view[0])
    else LastForNodeBefore(view[1..], node, beforeTs)
  }

  /** The newest matching transition is found by its position. */
  lemma {:induction false} FoundAt(view: seq<StateTransition>, k: nat, node: NodeId, beforeTs: nat)
    requires k < |view| && view[k].node == node && view[k].tsNs < beforeTs
    requires forall i :: 0 <= i < k ==> view[i].node != node || view[i].tsNs >= beforeTs
    ensures LastForNodeBefore(view, node, beforeTs) == Some(view[k])
  {
    if k > 0 {
      FoundAt(view[1..], k - 1, node, beforeTs);
    }
  }

  /** Looking a trigger up again, up to and including its own timestamp, finds that same trigger, in
      whatever order the timestamps were recorded. */
  lemma {:induction false} RelookupFindsTrigger(view: seq<StateTransition>, node: NodeId, beforeTs: nat)
    requires LastForNodeBefore(view, node, beforeTs).Some?
    ensures var t := LastForNodeBefore(view, node, beforeTs).value;
      LastForNodeBefore(view, node, t.tsNs + 1) == Some(t)
  {
    if !(view[0].node == node && view[0].tsNs < beforeTs) {
      RelookupFindsTrigger(view[1..], node, beforeTs);
    }
  }

  /** One measured edge instance. */
  datatype Step = Step(edge: DependencyEdge, effect: StateTransition, trigger: StateTransition)
  {
    function Dt(): u64 {
      SaturatingSub(effect.tsNs, trigger.tsNs)
    }
    predicate OverBudget() {
      Dt() > edge.wcetNs
    }
  }

  /** The effect instance the walk uses for a popped `(node, ts)`. */
  function Instance(view: seq<StateTransition>, trip: StateTransition, node: NodeId, ts: u64): Option<StateTransition> {
    if node == trip.node && ts == trip.tsNs then Some(trip) else LastForNodeBefore(view, node, ts + 1)
  }

  /** What one incoming edge contributes: nothing, or the step it measures. */
  function Measure(view: seq<StateTransition>, trip: StateTransition, node: NodeId, ts: u64,
                   edge: DependencyEdge): (r: seq<Step>)
    ensures |r| <= 1
  {
    match Instance(view, trip, node, ts)
    case None => []
    case Some(effect) =>
      match LastForNodeBefore(view, edge.from, effect.tsNs)
      case None => []
      case Some(trigger) => [Step(edge, effect, trigger)]
  }

  function Expand(view: seq<StateTransition>, trip: StateTransition, node: NodeId, ts: u64,
                  incoming: seq<DependencyEdge>): seq<Step> {
    if incoming == [] then []
    else
      Expand(view, trip, node, ts, incoming[..|incoming| - 1])
      + Measure(view, trip, node, ts, incoming[|incoming| - 1])
  }

  /** A frontier entry: a node to expand, and the timestamp it was met at. */
  datatype Entry = Entry(node: NodeId, ts: u64)

  function EntryOf(s: Step): Entry {
    Entry(s.edge.from, s.trigger.tsNs)
  }

  function Pushes(steps: seq<Step>): (r: seq<Entry>)
    ensures |r| == |steps| && forall i :: 0 <= i < |r| ==> r[i] == EntryOf(steps[i])
  {
    seq(|steps|, i requires 0 <= i < |steps| => EntryOf(steps[i]))
  }

  function Heads(edges: seq<DependencyEdge>): set<NodeId> {
    set e | e in edges :: e.to
  }

  lemma NoIncoming(edges: seq<DependencyEdge>, n: NodeId)
    requires n !in Heads(edges)
    ensures Incoming(edges, n) == []
  {
    if edges != [] {
      var init, last := edges[..|edges| - 1], edges[|edges| - 1];
      assert last in edges && Heads(init) <= Heads(edges);
      NoIncoming(init, n);
    }
  }

  /** All steps the walk measures, in order, from a given frontier (popped at its end) and visited set. */
  function Walk(edges: seq<DependencyEdge>, view: seq<StateTransition>, trip: StateTransition,
                frontier: seq<Entry>, visited: set<NodeId>): seq<Step>
    decreases Heads(edges) - visited, |frontier|
  {
    if frontier == [] then []
    else
      var Entry(node, ts) := frontier[|frontier| - 1];
      var rest := frontier[..|frontier| - 1];
      if node in visited then Walk(edges, view, trip, rest, visited)
      else
        var steps := Expand(view, trip, node, ts, Incoming(edges, node));
        if node in Heads(edges) then
          steps + Walk(edges, view, trip, rest + Pushes(steps), visited + {node})
        else
          NoIncoming(edges, node);
          assert Heads(edges) - (visited + {node}) == Heads(edges) - visited;
          steps + Walk(edges, view, trip, rest + Pushes(steps), visited + {node})
  }

  /** The walk from the trip. */
  function WalkFromTrip(edges: seq<DependencyEdge>, view: seq<StateTransition>, trip: StateTransition): seq<Step> {
    Walk(edges, view, trip, [Entry(trip.node, trip.tsNs)], {})
  }

  // ---------------------------------------------------------------- what the walk keeps

  /** A step the data supports, whether or not the walk took it. */
  ghost predicate Genuine(edges: seq<DependencyEdge>, view: seq<StateTransition>, s: Step) {
    && s.edge in edges
    && s.effect.node == s.edge.to
    && LastForNodeBefore(view, s.edge.from, s.effect.tsNs) == Some(s.trigger)
  }

  /** `x` is the trip, or the trigger of a logged step. */
  ghost predicate Known(log: seq<Step>, trip: StateTransition, x: StateTransition) {
    x == trip || exists i :: 0 <= i < |log| && log[i].trigger == x
  }

  /** Every logged effect is the trip or the trigger of an earlier step. */
  ghost predicate Grounded(log: seq<Step>, trip: StateTransition) {
    forall i :: 0 <= i < |log| ==> Known(log[..i], trip, log[i].effect)
  }

  /** Every genuine step into `x` is logged. */
  ghost predicate ExpandedAt(edges: seq<DependencyEdge>, view: seq<StateTransition>, log: seq<Step>,
                             x: StateTransition) {
    forall s: Step :: Genuine(edges, view, s) && s.effect == x ==> s in log
  }

  /** No node is expanded at two instances. */
  ghost predicate OneInstancePerNode(log: seq<Step>) {
    forall s, s' :: s in log && s' in log && s.effect.node == s'.effect.node ==> s.effect == s'.effect
  }

  /** A visited node was expanded, at a known instance. */
  ghost predicate ExpandedNode(edges: seq<DependencyEdge>, view: seq<StateTransition>, trip: StateTransition,
                               log: seq<Step>, n: NodeId) {
    exists x :: Known(log, trip, x) && x.node == n && ExpandedAt(edges, view, log, x)
  }

  ghost predicate Backed(log: seq<Step>, entry: Entry) {
    exists s :: s in log && EntryOf(s) == entry
  }

  ghost predicate Sound(edges: seq<DependencyEdge>, view: seq<StateTransition>, trip: StateTransition, log: seq<Step>) {
    forall s :: s in log ==> Genuine(edges, view, s) && s.effect.tsNs <= trip.tsNs
  }

  ghost predicate Covered(log: seq<Step>, frontier: seq<Entry>, visited: set<NodeId>) {
    forall s :: s in log ==> s.effect.node in visited && (s.edge.from in visited || EntryOf(s) in frontier)
  }

  ghost predicate AllBacked(log: seq<Step>, frontier: seq<Entry>) {
    forall entry :: entry in frontier ==> Backed(log, entry)
  }

  ghost predicate AllExpanded(edges: seq<DependencyEdge>, view: seq<StateTransition>, trip: StateTransition,
                              log: seq<Step>, visited: set<NodeId>) {
    forall n :: n in visited ==> ExpandedNode(edges, view, trip, log, n)
  }

  /** The loop invariant of the walk once the trip itself has been expanded. */
  ghost predicate Inv(edges: seq<DependencyEdge>, view: seq<StateTransition>, trip: StateTransition,
                      log: seq<Step>, frontier: seq<Entry>, visited: set<NodeId>) {
    && trip.node in visited
    && Sound(edges, view, trip, log)
    && Grounded(log, trip)
    && OneInstancePerNode(log)
    && Covered(log, frontier, visited)
    && AllBacked(log, frontier)
    && ExpandedAt(edges, view, log, trip)
    && AllExpanded(edges, view, trip, log, visited)
  }

  lemma ExpandExact(edges: seq<DependencyEdge>, view: seq<StateTransition>, trip: StateTransition,
                    node: NodeId, ts: u64, x: StateTransition, incoming: seq<DependencyEdge>)
    requires Instance(view, trip, node, ts) == Some(x) && x.node == node
    requires forall e :: e in incoming ==> e in edges && e.to == node
    ensures forall s :: s in Expand(view, trip, node, ts, incoming) <==>
      s.edge in incoming && s.effect == x && Genuine(edges, view, s)
  {
    if incoming != [] {
      var init, last := incoming[..|incoming| - 1], incoming[|incoming| - 1];
      assert incoming == init + [last];
      ExpandExact(edges, view, trip, node, ts, x, init);
    }
  }

  lemma GroundedExtends(log: seq<Step>, more: seq<Step>, trip: StateTransition)
    requires Grounded(log, trip)
    requires forall s :: s in more ==> Known(log, trip, s.effect)
    ensures Grounded(log + more, trip)
  {
    var all := log + more;
    forall i | 0 <= i < |all|
      ensures Known(all[..i], trip, all[i].effect)
    {
      if i < |log| {
        assert all[..i] == log[..i];
      } else {
        assert all[i] in more;
        if all[i].effect != trip {
          var k :| 0 <= k < |log| && log[k].trigger == all[i].effect;
          assert all[..i][k] == log[k];
        }
      }
    }
  }

  lemma KnownExtends(log: seq<Step>, more: seq<Step>, trip: StateTransition, x: StateTransition)
    requires Known(log, trip, x)
    ensures Known(log + more, trip, x)
  {
    if x != trip {
      var k :| 0 <= k < |log| && log[k].trigger == x;
      assert (log + more)[k] == log[k];
    }
  }

  lemma ExpandedNodeExtends(edges: seq<DependencyEdge>, view: seq<StateTransition>, trip: StateTransition,
                            log: seq<Step>, more: seq<Step>, n: NodeId)
    requires ExpandedNode(edges, view, trip, log, n)
    ensures ExpandedNode(edges, view, trip, log + more, n)
  {
    var x :| Known(log, trip, x) && x.node == n && ExpandedAt(edges, view, log, x);
    KnownExtends(log, more, trip, x);
    assert ExpandedAt(edges, view, log + more, x);
  }

  /** A popped frontier entry stands for the very trigger that pushed it. */
  lemma PoppedInstance(edges: seq<DependencyEdge>, view: seq<StateTransition>, trip: StateTransition, s: Step)
    requires Genuine(edges, view, s) && s.effect.tsNs <= trip.tsNs
    ensures s.trigger.node == s.edge.from && s.trigger.tsNs < s.effect.tsNs <= trip.tsNs
    ensures Instance(view, trip, s.edge.from, s.trigger.tsNs) == Some(s.trigger)
  {
    RelookupFindsTrigger(view, s.edge.from, s.effect.tsNs);
  }

  lemma PushesCover(log: seq<Step>, rest: seq<Entry>, entry: Entry, steps: seq<Step>, visited: set<NodeId>)
    requires Covered(log, rest + [entry], visited)
    requires forall s :: s in steps ==> s.effect.node == entry.node
    ensures Covered(log + steps, rest + Pushes(steps), visited + {entry.node})
  {
    var pushes := Pushes(steps);
    forall s | s in log + steps
      ensures s.effect.node in visited + {entry.node}
      ensures s.edge.from in visited + {entry.node} || EntryOf(s) in rest + pushes
    {
      if s in steps {
        var k :| 0 <= k < |steps| && steps[k] == s;
        assert (rest + pushes)[|rest| + k] == EntryOf(s);
      } else if EntryOf(s) in rest {
      } else {
        assert s.edge.from in visited || EntryOf(s) == entry;
      }
    }
  }

  lemma PushesBacked(log: seq<Step>, rest: seq<Entry>, steps: seq<Step>)
    requires AllBacked(log, rest)
    ensures AllBacked(log + steps, rest + Pushes(steps))
  {
    var pushes := Pushes(steps);
    forall e | e in rest + pushes
      ensures Backed(log + steps, e)
    {
      if e in rest {
        var s :| s in log && EntryOf(s) == e;
        assert s in log + steps;
      } else {
        var k :| 0 <= k < |pushes| && pushes[k] == e;
        assert steps[k] in log + steps;
      }
    }
  }

  /** Expanding a known instance `x` of a fresh node adds exactly the genuine steps into `x`. */
  lemma ExpansionGrows(edges: seq<DependencyEdge>, view: seq<StateTransition>, trip: StateTransition,
                       log: seq<Step>, steps: seq<Step>, visited: set<NodeId>, x: StateTransition)
    requires Sound(edges, view, trip, log) && Grounded(log, trip) && OneInstancePerNode(log)
    requires AllExpanded(edges, view, trip, log, visited)
    requires forall s :: s in log ==> s.effect.node in visited
    requires Known(log, trip, x) && x.tsNs <= trip.tsNs && x.node !in visited
    requires forall s :: s in steps <==> s.effect == x && Genuine(edges, view, s)
    ensures Sound(edges, view, trip, log + steps) && Grounded(log + steps, trip) && OneInstancePerNode(log + steps)
    ensures ExpandedAt(edges, view, log + steps, x)
    ensures AllExpanded(edges, view, trip, log + steps, visited + {x.node})
  {
    var all := log + steps;
    GroundedExtends(log, steps, trip);
    assert ExpandedAt(edges, view, all, x);
    KnownExtends(log, steps, trip, x);
    assert ExpandedNode(edges, view, trip, all, x.node);
    forall n | n in visited + {x.node}
      ensures ExpandedNode(edges, view, trip, all, n)
    {
      if n in visited {
        ExpandedNodeExtends(edges, view, trip, log, steps, n);
      }
    }
  }

  /** One iteration of the walk that expands a fresh node keeps the invariant. */
  lemma ExpansionKeeps(edges: seq<DependencyEdge>, view: seq<StateTransition>, trip: StateTransition,
                       log: seq<Step>, frontier: seq<Entry>, rest: seq<Entry>, entry: Entry, visited: set<NodeId>)
    returns (steps: seq<Step>, all: seq<Step>, next: seq<Entry>)
    requires frontier == rest + [entry] && entry.node !in visited
    requires Inv(edges, view, trip, log, frontier, visited)
    ensures steps == Expand(view, trip, entry.node, entry.ts, Incoming(edges, entry.node))
    ensures all == log + steps && next == rest + Pushes(steps)
    ensures Inv(edges, view, trip, all, next, visited + {entry.node})
  {
    steps := Expand(view, trip, entry.node, entry.ts, Incoming(edges, entry.node));
    all, next := log + steps, rest + Pushes(steps);
    assert entry in rest + [entry];
    assert Backed(log, entry);
    var s0 :| s0 in log && EntryOf(s0) == entry;
    PoppedInstance(edges, view, trip, s0);
    var x := s0.trigger;
    ExpandExact(edges, view, trip, entry.node, entry.ts, x, Incoming(edges, entry.node));
    assert Known(log, trip, x) by { var k :| 0 <= k < |log| && log[k] == s0; }
    ExpansionGrows(edges, view, trip, log, steps, visited, x);
    PushesCover(log, rest, entry, steps, visited);
    assert AllBacked(log, rest);
    PushesBacked(log, rest, steps);
    assert ExpandedAt(edges, view, all, trip);
  }

  /** Popping an entry of a visited node keeps the invariant. */
  lemma SkipKeeps(edges: seq<DependencyEdge>, view: seq<StateTransition>, trip: StateTransition,
                  log: seq<Step>, frontier: seq<Entry>, rest: seq<Entry>, entry: Entry, visited: set<NodeId>)
    requires frontier == rest + [entry] && entry.node in visited
    requires Inv(edges, view, trip, log, frontier, visited)
    ensures Inv(edges, view, trip, log, rest, visited)
  {
    forall s | s in log ensures s.edge.from in visited || EntryOf(s) in rest {
      assert s.edge.from in visited || EntryOf(s) in rest + [entry];
    }
    forall e | e in rest ensures Backed(log, e) {
      assert e in rest + [entry];
    }
  }

  /** One iteration of the walk. */
  lemma WalkPops(edges: seq<DependencyEdge>, view: seq<StateTransition>, trip: StateTransition,
                 rest: seq<Entry>, entry: Entry, visited: set<NodeId>)
    ensures var steps := Expand(view, trip, entry.node, entry.ts, Incoming(edges, entry.node));
      Walk(edges, view, trip, rest + [entry], visited) ==
        if entry.node in visited then Walk(edges, view, trip, rest, visited)
        else steps + Walk(edges, view, trip, rest + Pushes(steps), visited + {entry.node})
  {
    var frontier := rest + [entry];
    assert frontier[|frontier| - 1] == entry && frontier[..|frontier| - 1] == rest;
  }

  lemma WalkEnds(edges: seq<DependencyEdge>, view: seq<StateTransition>, trip: StateTransition, visited: set<NodeId>)
    ensures Walk(edges, view, trip, [], visited) == []
  {
  }

  lemma FreshNodeDecreases(edges: seq<DependencyEdge>, view: seq<StateTransition>, trip: StateTransition, entry: Entry,
                           visited: set<NodeId>)
    requires entry.node !in visited
    ensures Heads(edges) - (visited + {entry.node}) < Heads(edges) - visited
      || (Heads(edges) - (visited + {entry.node}) == Heads(edges) - visited
          && Expand(view, trip, entry.node, entry.ts, Incoming(edges, entry.node)) == [])
  {
    if entry.node in Heads(edges) {
      assert entry.node in Heads(edges) - visited;
    } else {
      NoIncoming(edges, entry.node);
      assert Heads(edges) - (visited + {entry.node}) == Heads(edges) - visited;
    }
  }

  /** The invariant holds of the complete log, with the frontier used up. */
  lemma {:induction false} WalkKeepsInv(edges: seq<DependencyEdge>, view: seq<StateTransition>, trip: StateTransition,
                                        log: seq<Step>, frontier: seq<Entry>, visited: set<NodeId>)
    returns (finalLog: seq<Step>, finalVisited: set<NodeId>)
    requires Inv(edges, view, trip, log, frontier, visited)
    ensures finalLog == log + Walk(edges, view, trip, frontier, visited)
    ensures Inv(edges, view, trip, finalLog, [], finalVisited)
    decreases Heads(edges) - visited, |frontier|
  {
    if frontier == [] {
      finalLog, finalVisited := log, visited;
    } else {
      var rest, entry := frontier[..|frontier| - 1], frontier[|frontier| - 1];
      assert frontier == rest + [entry];
      hide Walk, Expand, Inv, Incoming, Heads;
      WalkPops(edges, view, trip, rest, entry, visited);
      if entry.node in visited {
        SkipKeeps(edges, view, trip, log, frontier, rest, entry, visited);
        finalLog, finalVisited := WalkKeepsInv(edges, view, trip, log, rest, visited);
      } else {
        var steps, all, next := ExpansionKeeps(edges, view, trip, log, frontier, rest, entry, visited);
        FreshNodeDecreases(edges, view, trip, entry, visited);
        finalLog, finalVisited := WalkKeepsInv(edges, view, trip, all, next, visited + {entry.node});
        ConcatAssociative(log, steps, Walk(edges, view, trip, next, visited + {entry.node}));
      }
    }
  }

  /** Everything the finished walk satisfies. */
  lemma WalkFacts(edges: seq<DependencyEdge>, view: seq<StateTransition>, trip: StateTransition)
    returns (log: seq<Step>, visited: set<NodeId>)
    ensures log == WalkFromTrip(edges, view, trip)
    ensures Inv(edges, view, trip, log, [], visited)
  {
    var n := trip.node;
    var entry := Entry(n, trip.tsNs);
    var steps := Expand(view, trip, n, trip.tsNs, Incoming(edges, n));
    ExpandExact(edges, view, trip, n, trip.tsNs, trip, Incoming(edges, n));
    assert Known([], trip, trip);
    ExpansionGrows(edges, view, trip, [], steps, {}, trip);
    PushesCover([], [], entry, steps, {});
    PushesBacked([], [], steps);
    assert [] + steps == steps && [] + Pushes(steps) == Pushes(steps) && {} + {n} == {n};
    assert Inv(edges, view, trip, steps, Pushes(steps), {n});
    log, visited := WalkKeepsInv(edges, view, trip, steps, Pushes(steps), {n});
    assert [entry][..0] + Pushes(steps) == Pushes(steps);
  }

  lemma FirstStep(edges: seq<DependencyEdge>, view: seq<StateTransition>, trip: StateTransition, log: seq<Step>)
    requires Sound(edges, view, trip, log) && Grounded(log, trip) && log != []
    ensures log[0].effect == trip && Genuine(edges, view, log[0])
  {
    assert Known(log[..0], trip, log[0].effect);
  }
}
