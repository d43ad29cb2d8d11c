/** The attribution engine: classify, detect a falling interlock, record, and walk back on a trip. */
module Observer {
  import opened Basics
  import opened Ingest
  import opened CausalTypes
  import opened History
  import opened BackwardWalk
  import opened Ranking
  import opened AttributionTheorems
  import opened RingBuffers

  /** The counter, the level map and the ring's view are what the history says they are. */
  ghost predicate Reflects(h: History, seqNo: nat, levels: map<NodeId, bool>, view: seq<StateTransition>, cap: nat) {
    && seqNo == |h| && Numbered(h)
    && view == Newest(h, cap)
    && forall n: NodeId :: LastLevel(h, n) == if n in levels then Some(levels[n]) else None
  }

  lemma ReflectsNext(h: History, levels: map<NodeId, bool>, view: seq<StateTransition>, cap: nat, t: StateTransition)
    requires cap > 0 && Reflects(h, t.seqNo, levels, view, cap)
    ensures Reflects(h + [t], t.seqNo + 1, if t.interlock.Some? then levels[t.node := t.interlock.value] else levels,
                     ([t] + view)[..Min(|view| + 1, cap)], cap)
  {
    NewestAfter(h, t, cap);
    forall n: NodeId { LastLevelAfter(h, t, n); }
  }

  lemma LevelIsLast(h: History, seqNo: nat, levels: map<NodeId, bool>, view: seq<StateTransition>, cap: nat, n: NodeId)
    requires Reflects(h, seqNo, levels, view, cap)
    ensures LastLevel(h, n) == if n in levels then Some(levels[n]) else None
    ensures |h| == seqNo
  {
  }

  lemma ViewIsNewest(h: History, seqNo: nat, levels: map<NodeId, bool>, view: seq<StateTransition>, cap: nat)
    requires Reflects(h, seqNo, levels, view, cap)
    ensures view == Newest(h, cap)
  {
  }

  class CausalGraphObserver {
    const manifest: DependencyManifest
    const ring: RingBuffer
    var seqNo: nat
    var lastInterlock: map<NodeId, bool>
    /** Every transition recorded since the start, evicted ones included. */
    ghost var history: History

    ghost predicate Valid()
      reads this, ring, ring.buf
    {
      manifest.Valid() && ring.Valid() && Reflects(history, seqNo, lastInterlock, ring.View(), ring.buf.Length)
    }

    constructor (manifest: DependencyManifest, cap: nat)
      requires manifest.Valid() && cap > 0
      ensures Valid() && history == [] && this.manifest == manifest && ring.buf.Length == cap
      ensures fresh(ring) && fresh(ring.buf)
    {
      this.manifest := manifest;
      ring := new RingBuffer(cap);
      seqNo := 0;
      lastInterlock := map[];
      history := [];
    }

    /** What recording `t` after `h` must return. */
    ghost function Verdict(h: History, t: StateTransition): Option<TripAnalysis>
      reads ring
    {
      if IsTrip(h, t, manifest.tripNode)
      then Some(Attribution(manifest.edges, Newest(h + [t], ring.buf.Length), t))
      else None
    }

    /** Feed one decoded frame; `c` is the classification the node table produced. */
    method Observe(f: DecodedFrame) returns (r: Option<TripAnalysis>, ghost c: Option<(NodeId, Option<bool>)>)
      requires Valid()
      modifies this, ring, ring.buf
      ensures Valid() && manifest.MayClassify(f, c)
      ensures c.None? ==> r == None && history == old(history)
      ensures c.Some? ==>
        var t := StateTransition(|old(history)|, c.value.0, f.tapTsNs, c.value.1);
        history == old(history) + [t] && r == Verdict(old(history), t)
      ensures r.Some? ==>
        && history != [] && r.value.tripEvent == history[|history| - 1]
        && Findings(manifest.edges, ring.View(), r.value.tripEvent, r.value.rankedCatalysts)
    {
      hide Reflects, Attribution, Findings, LastLevel, Newest, RingBuffer.Valid, RingBuffer.View,
        DependencyManifest.MayClassify;
      var classified := manifest.Classify(f);
      c := classified;
      if classified.None? {
        return None, c;
      }
      var (node, interlock) := classified.value;
      var transition := StateTransition(seqNo, node, f.tapTsNs, interlock);
      ghost var was, cap := history, ring.buf.Length;
      ReflectsNext(history, lastInterlock, ring.View(), cap, transition);
      LevelIsLast(history, seqNo, lastInterlock, ring.View(), cap, node);
      seqNo := seqNo + 1;

      var trip := false;
      if node == manifest.tripNode {
        if interlock.Some? {
          var level := interlock.value;
          var prev := if node in lastInterlock then Some(lastInterlock[node]) else None;
          if prev == Some(true) && !level {
            trip := true;
          }
          lastInterlock := lastInterlock[node := level];
        }
      } else if interlock.Some? {
        lastInterlock := lastInterlock[node := interlock.value];
      }

      assert trip <==> IsTrip(was, transition, manifest.tripNode);
      ring.Push(transition);
      history := history + [transition];
      assert ring.View() == Newest(history, cap) by { ViewIsNewest(history, seqNo, lastInterlock, ring.View(), cap); }

      if trip {
        var analysis, _ := Backtrack(transition);
        r := Some(analysis);
      } else {
        r := None;
      }
    }

    /** Backward attribution. `pops` counts the iterations of the outer loop. */
    method Backtrack(trip: StateTransition) returns (analysis: TripAnalysis, ghost pops: nat)
      requires ring.Valid() && manifest.RevAdjOk()
      ensures analysis == Attribution(manifest.edges, ring.View(), trip)
      ensures analysis.tripEvent == trip && Findings(manifest.edges, ring.View(), trip, analysis.rankedCatalysts)
      ensures pops == 1 + |WalkFromTrip(manifest.edges, ring.View(), trip)|
    {
      hide Walk, Expand, Incoming, Heads, Candidates, Rank, Pushes, Findings;
      ghost var edges, view := manifest.edges, ring.View();
      pops := 0;
      var candidates: seq<CandidateCatalyst> := [];
      var visited: set<NodeId> := {};
      var frontier: seq<Entry> := [Entry(trip.node, trip.tsNs)];
      ghost var todo := WalkFromTrip(edges, view, trip);
      NothingFound(candidates, todo);

      while frontier != []
        invariant todo == Walk(edges, view, trip, frontier, visited)
        invariant candidates + Candidates(todo) == Candidates(WalkFromTrip(edges, view, trip))
        invariant pops + |frontier| + |todo| == 1 + |WalkFromTrip(edges, view, trip)|
        invariant StampsBelow(frontier, trip)
        decreases Heads(edges) - visited, |frontier|
      {
        var popped := frontier[|frontier| - 1];
        assert frontier == frontier[..|frontier| - 1] + [popped];
        frontier := frontier[..|frontier| - 1];
        pops := pops + 1;
        IterationAdvances(edges, view, trip, frontier, popped, visited, candidates);
        if popped.node in visited {
          continue;
        }
        visited := visited + {popped.node};
        if popped.node !in manifest.revAdj {
          continue;
        }
        ghost var steps := Expand(view, trip, popped.node, popped.ts, Incoming(edges, popped.node));
        todo := Walk(edges, view, trip, frontier + Pushes(steps), visited);
        frontier, candidates :=
          ExpandInto(trip, popped.node, popped.ts, manifest.revAdj[popped.node], frontier, candidates);
      }
      WalkEnds(edges, view, trip, visited);
      NothingLeft(candidates, todo);
      analysis := TripAnalysis(trip, Rank(candidates));
      AttributionFindings(edges, view, trip);
    }

    static lemma NothingFound(candidates: seq<CandidateCatalyst>, todo: seq<Step>)
      requires candidates == []
      ensures candidates + Candidates(todo) == Candidates(todo)
    {
    }

    static lemma NothingLeft(candidates: seq<CandidateCatalyst>, todo: seq<Step>)
      requires todo == []
      ensures candidates + Candidates(todo) == candidates
    {
    }

    /** What one iteration of the outer loop leaves to be done. */
    static lemma IterationAdvances(edges: seq<DependencyEdge>, view: seq<StateTransition>, trip: StateTransition,
                                   rest: seq<Entry>, popped: Entry, visited: set<NodeId>,
                                   candidates: seq<CandidateCatalyst>)
      ensures var before := Walk(edges, view, trip, rest + [popped], visited);
        var steps := Expand(view, trip, popped.node, popped.ts, Incoming(edges, popped.node));
        var after := Walk(edges, view, trip, rest + Pushes(steps), visited + {popped.node});
        if popped.node in visited then before == Walk(edges, view, trip, rest, visited)
        else
          && before == steps + after
          && candidates + Candidates(before) == (candidates + Candidates(steps)) + Candidates(after)
          && (Heads(edges) - (visited + {popped.node}) < Heads(edges) - visited
              || (Heads(edges) - (visited + {popped.node}) == Heads(edges) - visited && steps == []))
          && (Incoming(edges, popped.node) == [] ==> steps == [] && rest + Pushes(steps) == rest && before == after)
    {
      WalkPops(edges, view, trip, rest, popped, visited);
      if popped.node !in visited {
        var steps := Expand(view, trip, popped.node, popped.ts, Incoming(edges, popped.node));
        var after := Walk(edges, view, trip, rest + Pushes(steps), visited + {popped.node});
        CandidatesAppend(steps, after);
        ConcatAssociative(candidates, Candidates(steps), Candidates(after));
        FreshNodeDecreases(edges, view, trip, popped, visited);
      }
    }

    /** Every entry but the trip's own is stamped before the trip, so looking it up again cannot overflow. */
    static ghost predicate StampsBelow(frontier: seq<Entry>, trip: StateTransition) {
      forall i :: 0 <= i < |frontier| ==> frontier[i] == Entry(trip.node, trip.tsNs) || frontier[i].ts < trip.tsNs
    }

    /** The inner loop: measure the incoming edges of one popped node. */
    method ExpandInto(trip: StateTransition, effectNode: NodeId, effectTs: u64, incoming: seq<DependencyEdge>,
                      frontier: seq<Entry>, candidates: seq<CandidateCatalyst>)
      returns (frontier': seq<Entry>, candidates': seq<CandidateCatalyst>)
      requires ring.Valid() && StampsBelow(frontier, trip)
      requires (effectNode, effectTs) == (trip.node, trip.tsNs) || effectTs < trip.tsNs
      ensures var steps := Expand(ring.View(), trip, effectNode, effectTs, incoming);
        frontier' == frontier + Pushes(steps) && candidates' == candidates + Candidates(steps)
      ensures StampsBelow(frontier', trip)
    {
      hide Expand, Candidates, Pushes, Measure, RingBuffer.Valid, RingBuffer.View;
      ghost var view := ring.View();
      frontier', candidates' := frontier, candidates;
      ExpandNone(view, trip, effectNode, effectTs, incoming, frontier, candidates);
      ghost var steps: seq<Step> := [];
      for k := 0 to |incoming|
        invariant ring.Valid() && ring.View() == view
        invariant steps == Expand(view, trip, effectNode, effectTs, incoming[..k])
        invariant frontier' == frontier + Pushes(steps) && candidates' == candidates + Candidates(steps)
        invariant StampsBelow(frontier', trip)
      {
        ghost var measured;
        steps, measured := ExpandNext(view, trip, effectNode, effectTs, incoming, k, steps, frontier, candidates);
        var r := MeasureEdge(trip, effectNode, effectTs, incoming[k]);
        if r.None? {
          continue;
        }
        var s := r.value;
        if s.Dt() > incoming[k].wcetNs {
          candidates' := candidates' + [CandidateOf(s)];
        }
        frontier' := frontier' + [EntryOf(s)];
      }
      assert incoming[..|incoming|] == incoming;
    }

    /** The effect instance and its trigger, if the ring still holds both. */
    method MeasureEdge(trip: StateTransition, effectNode: NodeId, effectTs: u64, edge: DependencyEdge)
      returns (r: Option<Step>)
      requires ring.Valid()
      requires Entry(effectNode, effectTs) == Entry(trip.node, trip.tsNs) || effectTs < trip.tsNs
      ensures Measure(ring.View(), trip, effectNode, effectTs, edge) == if r.None? then [] else [r.value]
      ensures r.Some? ==> r.value.edge == edge && r.value.trigger.tsNs < trip.tsNs
    {
      var effectInstance: StateTransition;
      if effectNode == trip.node && effectTs == trip.tsNs {
        effectInstance := trip;
      } else {
        var found := ring.LastForNodeBefore(effectNode, effectTs + 1);
        if found.None? {
          return None;
        }
        effectInstance := found.value;
      }
      var trigger := ring.LastForNodeBefore(edge.from, effectInstance.tsNs);
      if trigger.None? {
        return None;
      }
      return Some(Step(edge, effectInstance, trigger.value));
    }

    static lemma ExpandNone(view: seq<StateTransition>, trip: StateTransition, node: NodeId, ts: u64,
                            incoming: seq<DependencyEdge>,
                            frontier: seq<Entry>, candidates: seq<CandidateCatalyst>)
      ensures Expand(view, trip, node, ts, incoming[..0]) == []
      ensures frontier + Pushes([]) == frontier && candidates + Candidates([]) == candidates
    {
    }

    static lemma ExpandNext(view: seq<StateTransition>, trip: StateTransition, node: NodeId, ts: u64,
                            incoming: seq<DependencyEdge>, k: nat,
                            steps: seq<Step>, frontier: seq<Entry>, candidates: seq<CandidateCatalyst>)
      returns (steps': seq<Step>, measured: seq<Step>)
      requires k < |incoming| && steps == Expand(view, trip, node, ts, incoming[..k])
      ensures steps' == Expand(view, trip, node, ts, incoming[..k + 1])
      ensures measured == Measure(view, trip, node, ts, incoming[k])
      ensures measured == [] ==> steps' == steps
      ensures measured != [] ==>
        && frontier + Pushes(steps') == (frontier + Pushes(steps)) + [EntryOf(measured[0])]
        && candidates + Candidates(steps') ==
             if measured[0].OverBudget() then (candidates + Candidates(steps)) + [CandidateOf(measured[0])]
             else candidates + Candidates(steps)
    {
      hide LastForNodeBefore, Measure;
      assert incoming[..k + 1][..k] == incoming[..k];
      measured := Measure(view, trip, node, ts, incoming[k]);
      steps' := steps + measured;
      if measured != [] {
        assert steps'[..|steps|] == steps;
        assert Pushes(steps') == Pushes(steps) + [EntryOf(measured[0])];
      }
    }
  }
}
