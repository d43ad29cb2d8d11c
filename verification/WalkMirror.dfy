/** Two views that differ only in when certain nodes reported: the walk takes the same steps in both, as
    long as those reports stay on the same side of everything that looks for them. */
module WalkMirror {
  import opened Basics
  import opened CausalTypes
  import opened BackwardWalk

  /** The same instance, up to the reports of `moved` nodes. */
  predicate Alike(moved: set<NodeId>, t: StateTransition, t': StateTransition) {
    t == t' || (t.node == t'.node && t.node in moved)
  }

  ghost predicate AlikeViews(moved: set<NodeId>, view: seq<StateTransition>, view': seq<StateTransition>) {
    |view| == |view'| && forall i :: 0 <= i < |view| ==> Alike(moved, view[i], view'[i])
  }

  /** Whatever looks for a report of a moved node finds one in both views. */
  ghost predicate SourceSettled(moved: set<NodeId>, view: seq<StateTransition>, view': seq<StateTransition>,
                                trip: StateTransition, e: DependencyEdge) {
    e.from in moved && e.to !in moved ==>
      forall t :: (t == trip || t in view) && t.node == e.to ==>
        LastForNodeBefore(view, e.from, t.tsNs).Some? && LastForNodeBefore(view', e.from, t.tsNs).Some?
  }

  /** A moved node finds the same trigger from wherever it moved to. */
  ghost predicate TargetSettled(moved: set<NodeId>, view: seq<StateTransition>, view': seq<StateTransition>,
                                e: DependencyEdge) {
    e.to in moved ==>
      && e.from !in moved
      && forall t, t' :: t in view && t' in view' && t.node == t'.node == e.to ==>
           LastForNodeBefore(view, e.from, t.tsNs) == LastForNodeBefore(view', e.from, t'.tsNs)
  }

  ghost predicate Settled(moved: set<NodeId>, view: seq<StateTransition>, view': seq<StateTransition>,
                          trip: StateTransition, edges: seq<DependencyEdge>) {
    && trip.node !in moved && AlikeViews(moved, view, view')
    && forall e :: e in edges ==> SourceSettled(moved, view, view', trip, e) && TargetSettled(moved, view, view', e)
  }

  predicate StepsAlike(moved: set<NodeId>, s: Step, s': Step) {
    s.edge == s'.edge && Alike(moved, s.effect, s'.effect) && Alike(moved, s.trigger, s'.trigger)
  }

  ghost predicate LogsAlike(moved: set<NodeId>, log: seq<Step>, log': seq<Step>) {
    |log| == |log'| && forall i :: 0 <= i < |log| ==> StepsAlike(moved, log[i], log'[i])
  }

  /** Entries that stand for alike instances. */
  ghost predicate EntriesAlike(moved: set<NodeId>, view: seq<StateTransition>, view': seq<StateTransition>,
                               trip: StateTransition, p: Entry, p': Entry) {
    && p.node == p'.node
    && if p.node in moved then Instance(view, trip, p.node, p.ts).Some? && Instance(view', trip, p.node, p'.ts).Some?
       else p.ts == p'.ts
  }

  ghost predicate FrontiersAlike(moved: set<NodeId>, view: seq<StateTransition>, view': seq<StateTransition>,
                                 trip: StateTransition, ps: seq<Entry>, ps': seq<Entry>) {
    |ps| == |ps'| && forall i :: 0 <= i < |ps| ==> EntriesAlike(moved, view, view', trip, ps[i], ps'[i])
  }

  lemma {:induction false} LookupUnmoved(moved: set<NodeId>, view: seq<StateTransition>, view': seq<StateTransition>,
                                         node: NodeId, beforeTs: nat)
    requires AlikeViews(moved, view, view') && node !in moved
    ensures LastForNodeBefore(view, node, beforeTs) == LastForNodeBefore(view', node, beforeTs)
  {
    if view != [] {
      assert Alike(moved, view[0], view'[0]);
      LookupUnmoved(moved, view[1..], view'[1..], node, beforeTs);
    }
  }

  /** Alike entries resolve to alike instances. */
  lemma InstanceMirrors(moved: set<NodeId>, view: seq<StateTransition>, view': seq<StateTransition>,
                        trip: StateTransition, p: Entry, p': Entry)
    requires trip.node !in moved && AlikeViews(moved, view, view') && EntriesAlike(moved, view, view', trip, p, p')
    ensures var x, x' := Instance(view, trip, p.node, p.ts), Instance(view', trip, p.node, p'.ts);
      && x.Some? == x'.Some?
      && (x.Some? ==> x.value.node == x'.value.node == p.node && (x.value == trip || x.value in view))
      && (if p.node in moved then x.Some? && x.value in view && x'.value in view' else x == x')
  {
    hide LastForNodeBefore;
    if p.node !in moved {
      LookupUnmoved(moved, view, view', p.node, p.ts + 1);
    }
  }

  /** From alike instances, an edge finds alike triggers. */
  lemma TriggerMirrors(moved: set<NodeId>, view: seq<StateTransition>, view': seq<StateTransition>,
                       trip: StateTransition, e: DependencyEdge, x: StateTransition, x': StateTransition)
    requires AlikeViews(moved, view, view')
    requires SourceSettled(moved, view, view', trip, e) && TargetSettled(moved, view, view', e)
    requires x.node == x'.node == e.to && (x == trip || x in view)
    requires if e.to in moved then x in view && x' in view' else x == x'
    ensures var t, t' := LastForNodeBefore(view, e.from, x.tsNs), LastForNodeBefore(view', e.from, x'.tsNs);
      && t.Some? == t'.Some?
      && (t.Some? ==> t.value.node == t'.value.node == e.from && (e.from in moved || t == t'))
  {
    hide LastForNodeBefore;
    if e.from !in moved && e.to !in moved {
      LookupUnmoved(moved, view, view', e.from, x.tsNs);
    }
  }

  lemma PushedEntriesAlike(moved: set<NodeId>, view: seq<StateTransition>, view': seq<StateTransition>,
                           trip: StateTransition, s: Step, s': Step)
    requires trip.node !in moved && StepsAlike(moved, s, s') && s.trigger.node == s'.trigger.node == s.edge.from
    requires LastForNodeBefore(view, s.edge.from, s.effect.tsNs) == Some(s.trigger)
    requires LastForNodeBefore(view', s.edge.from, s'.effect.tsNs) == Some(s'.trigger)
    ensures EntriesAlike(moved, view, view', trip, EntryOf(s), EntryOf(s'))
  {
    RelookupFindsTrigger(view, s.edge.from, s.effect.tsNs);
    RelookupFindsTrigger(view', s.edge.from, s'.effect.tsNs);
    hide LastForNodeBefore;
  }

  lemma NothingAlike(moved: set<NodeId>, view: seq<StateTransition>, view': seq<StateTransition>, trip: StateTransition)
    ensures LogsAlike(moved, [], []) && FrontiersAlike(moved, view, view', trip, Pushes([]), Pushes([]))
  {
  }

  lemma OneAlike(moved: set<NodeId>, view: seq<StateTransition>, view': seq<StateTransition>, trip: StateTransition,
                 s: Step, s': Step)
    requires StepsAlike(moved, s, s') && EntriesAlike(moved, view, view', trip, EntryOf(s), EntryOf(s'))
    ensures LogsAlike(moved, [s], [s']) && FrontiersAlike(moved, view, view', trip, Pushes([s]), Pushes([s']))
  {
    hide StepsAlike, EntriesAlike;
  }

  lemma SettledAt(moved: set<NodeId>, view: seq<StateTransition>, view': seq<StateTransition>,
                  trip: StateTransition, edges: seq<DependencyEdge>, e: DependencyEdge)
    requires Settled(moved, view, view', trip, edges) && e in edges
    ensures trip.node !in moved && AlikeViews(moved, view, view')
    ensures SourceSettled(moved, view, view', trip, e) && TargetSettled(moved, view, view', e)
  {
  }

  /** One edge contributes alike steps, and alike entries to follow up. */
  lemma MeasureMirrors(moved: set<NodeId>, view: seq<StateTransition>, view': seq<StateTransition>,
                       trip: StateTransition, edges: seq<DependencyEdge>, p: Entry, p': Entry, e: DependencyEdge)
    requires Settled(moved, view, view', trip, edges) && e in edges && e.to == p.node
    requires EntriesAlike(moved, view, view', trip, p, p')
    ensures var a, b := Measure(view, trip, p.node, p.ts, e), Measure(view', trip, p.node, p'.ts, e);
      LogsAlike(moved, a, b) && FrontiersAlike(moved, view, view', trip, Pushes(a), Pushes(b))
  {
    hide LastForNodeBefore, Settled, SourceSettled, TargetSettled, AlikeViews, Instance, EntriesAlike, LogsAlike,
      FrontiersAlike, Pushes;
    SettledAt(moved, view, view', trip, edges, e);
    InstanceMirrors(moved, view, view', trip, p, p');
    NothingAlike(moved, view, view', trip);
    var x, x' := Instance(view, trip, p.node, p.ts), Instance(view', trip, p.node, p'.ts);
    if x.Some? {
      TriggerMirrors(moved, view, view', trip, e, x.value, x'.value);
      var t, t' := LastForNodeBefore(view, e.from, x.value.tsNs), LastForNodeBefore(view', e.from, x'.value.tsNs);
      if t.Some? {
        var s, s' := Step(e, x.value, t.value), Step(e, x'.value, t'.value);
        PushedEntriesAlike(moved, view, view', trip, s, s');
        OneAlike(moved, view, view', trip, s, s');
      }
    }
  }

  lemma AlikeAppend(moved: set<NodeId>, view: seq<StateTransition>, view': seq<StateTransition>, trip: StateTransition,
                    a: seq<Step>, b: seq<Step>, c: seq<Step>, d: seq<Step>)
    requires LogsAlike(moved, a, b) && LogsAlike(moved, c, d)
    requires FrontiersAlike(moved, view, view', trip, Pushes(a), Pushes(b))
    requires FrontiersAlike(moved, view, view', trip, Pushes(c), Pushes(d))
    ensures LogsAlike(moved, a + c, b + d)
    ensures FrontiersAlike(moved, view, view', trip, Pushes(a + c), Pushes(b + d))
  {
    hide EntriesAlike, StepsAlike;
    assert Pushes(a + c) == Pushes(a) + Pushes(c) && Pushes(b + d) == Pushes(b) + Pushes(d);
  }

  lemma {:induction false} ExpandMirrors(moved: set<NodeId>, view: seq<StateTransition>, view': seq<StateTransition>,
                                         trip: StateTransition, edges: seq<DependencyEdge>, p: Entry, p': Entry,
                                         incoming: seq<DependencyEdge>)
    requires Settled(moved, view, view', trip, edges) && EntriesAlike(moved, view, view', trip, p, p')
    requires forall e :: e in incoming ==> e in edges && e.to == p.node
    ensures var a, b := Expand(view, trip, p.node, p.ts, incoming), Expand(view', trip, p.node, p'.ts, incoming);
      LogsAlike(moved, a, b) && FrontiersAlike(moved, view, view', trip, Pushes(a), Pushes(b))
  {
    hide Settled, EntriesAlike, Measure, LogsAlike, FrontiersAlike, Pushes;
    if incoming == [] {
      NothingAlike(moved, view, view', trip);
    } else {
      var init, last := incoming[..|incoming| - 1], incoming[|incoming| - 1];
      ExpandMirrors(moved, view, view', trip, edges, p, p', init);
      MeasureMirrors(moved, view, view', trip, edges, p, p', last);
      AlikeAppend(moved, view, view', trip, Expand(view, trip, p.node, p.ts, init),
        Expand(view', trip, p.node, p'.ts, init),
                  Measure(view, trip, p.node, p.ts, last), Measure(view', trip, p.node, p'.ts, last));
    }
  }

  lemma LogsAppend(moved: set<NodeId>, a: seq<Step>, b: seq<Step>, c: seq<Step>, d: seq<Step>)
    requires LogsAlike(moved, a, b) && LogsAlike(moved, c, d)
    ensures LogsAlike(moved, a + c, b + d)
  {
  }

  lemma FrontiersAppend(moved: set<NodeId>, view: seq<StateTransition>, view': seq<StateTransition>,
                        trip: StateTransition,
                        a: seq<Entry>, b: seq<Entry>, c: seq<Entry>, d: seq<Entry>)
    requires FrontiersAlike(moved, view, view', trip, a, b) && FrontiersAlike(moved, view, view', trip, c, d)
    ensures FrontiersAlike(moved, view, view', trip, a + c, b + d)
  {
    hide EntriesAlike;
  }

  lemma FrontiersSplit(moved: set<NodeId>, view: seq<StateTransition>, view': seq<StateTransition>,
                       trip: StateTransition,
                       ps: seq<Entry>, ps': seq<Entry>)
    requires FrontiersAlike(moved, view, view', trip, ps, ps') && ps != []
    ensures |ps| == |ps'|
    ensures FrontiersAlike(moved, view, view', trip, ps[..|ps| - 1], ps'[..|ps| - 1])
    ensures EntriesAlike(moved, view, view', trip, ps[|ps| - 1], ps'[|ps| - 1])
    ensures ps[|ps| - 1].node == ps'[|ps| - 1].node
  {
  }

  lemma {:induction false} WalkMirrors(moved: set<NodeId>, view: seq<StateTransition>, view': seq<StateTransition>,
                                       trip: StateTransition, edges: seq<DependencyEdge>,
                                       frontier: seq<Entry>, frontier': seq<Entry>, visited: set<NodeId>)
    requires Settled(moved, view, view', trip, edges)
    requires FrontiersAlike(moved, view, view', trip, frontier, frontier')
    ensures LogsAlike(moved, Walk(edges, view, trip, frontier, visited), Walk(edges, view', trip, frontier', visited))
    decreases Heads(edges) - visited, |frontier|
  {
    if frontier != [] {
      var k := |frontier| - 1;
      FrontiersSplit(moved, view, view', trip, frontier, frontier');
      var rest, rest', p, p' := frontier[..k], frontier'[..k], frontier[k], frontier'[k];
      assert frontier == rest + [p] && frontier' == rest' + [p'];
      hide Walk, Expand, Incoming, Heads, Pushes, Settled, FrontiersAlike, EntriesAlike, LogsAlike;
      WalkPops(edges, view, trip, rest, p, visited);
      WalkPops(edges, view', trip, rest', p', visited);
      if p.node in visited {
        WalkMirrors(moved, view, view', trip, edges, rest, rest', visited);
      } else {
        var incoming := Incoming(edges, p.node);
        var steps, steps' := Expand(view, trip, p.node, p.ts, incoming), Expand(view', trip, p.node, p'.ts, incoming);
        ExpandMirrors(moved, view, view', trip, edges, p, p', incoming);
        FreshNodeDecreases(edges, view, trip, p, visited);
        FrontiersAppend(moved, view, view', trip, rest, rest', Pushes(steps), Pushes(steps'));
        NoStepsNoPushes(rest, steps);
        WalkMirrors(moved, view, view', trip, edges, rest + Pushes(steps), rest' + Pushes(steps'), visited + {p.node});
        LogsAppend(moved, steps, steps', Walk(edges, view, trip, rest + Pushes(steps), visited + {p.node}),
                   Walk(edges, view', trip, rest' + Pushes(steps'), visited + {p.node}));
      }
    } else {
      WalkEnds(edges, view, trip, visited);
      WalkEnds(edges, view', trip, visited);
    }
  }

  lemma NoStepsNoPushes(rest: seq<Entry>, steps: seq<Step>)
    ensures steps == [] ==> rest + Pushes(steps) == rest
  {
  }

  /** The walk takes the same edges in the same order, through alike instances. */
  lemma WalkFromTripMirrors(moved: set<NodeId>, view: seq<StateTransition>, view': seq<StateTransition>,
                            trip: StateTransition, edges: seq<DependencyEdge>)
    requires Settled(moved, view, view', trip, edges)
    ensures LogsAlike(moved, WalkFromTrip(edges, view, trip), WalkFromTrip(edges, view', trip))
  {
    hide Walk;
    var start := [Entry(trip.node, trip.tsNs)];
    assert FrontiersAlike(moved, view, view', trip, start, start);
    WalkMirrors(moved, view, view', trip, edges, start, start, {});
  }
}
