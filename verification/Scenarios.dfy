/** A family of runs around a fork: every node reports once, in topological order; the shared node `n`
    reports again just after its first successor, its dependency `m` reports again at a time to choose, and
    the trip node finally falls. */
module Scenarios {
  import opened Basics
  import opened CausalTypes
  import opened History
  import opened Graphs
  import opened Runs
  import opened BackwardWalk
  import opened Completeness

  datatype Scenario = Scenario(nodes: NodeTable, order: seq<NodeId>, tripNode: NodeId,
                               m: NodeId, n: NodeId, ia: nat, again: nat)
  {
    ghost predicate Ok() {
      && |order| <= 0x1_0000_0000 && Distinct(order) && (forall x :: x in order ==> CanReport(nodes, x))
      && tripNode in order && WatchesInterlock(nodes, tripNode) && m in order && n in order
      && m != tripNode && n != tripNode && m != n
      && IndexIn(order, m) < IndexIn(order, n) < ia < |order|
      && Stamp(IndexIn(order, m)) <= again <= Stamp(ia)
    }

    /** When the node at a position reports. */
    function Stamp(i: nat): nat {
      2 * (i + 1)
    }

    ghost function Report(i: nat): StateTransition
      requires Ok() && i < |order|
    {
      StateTransition(i, order[i], Stamp(i), High(nodes, order[i]))
    }

    ghost function Again(): StateTransition
      requires Ok()
    {
      StateTransition(|order|, m, again, High(nodes, m))
    }

    ghost function Late(): StateTransition
      requires Ok()
    {
      StateTransition(|order| + 1, n, Stamp(ia) + 1, High(nodes, n))
    }

    ghost function Fall(): StateTransition
      requires Ok()
    {
      StateTransition(|order| + 2, tripNode, Stamp(|order|), Some(false))
    }

    ghost function Run(): (h: History)
      requires Ok()
      ensures |h| == |order| + 3
    {
      seq(|order|, i requires 0 <= i < |order| => Report(i)) + [Again(), Late(), Fall()]
    }

    ghost function View(): (view: History)
      requires Ok()
      ensures |view| == |order| + 3
    {
      Newest(Run(), |order| + 3)
    }

    lemma RunIsTripRun()
      requires Ok()
      ensures TripRun(nodes, Run(), tripNode) && Run()[|order| + 2] == Fall()
    {
      var h, k := Run(), IndexIn(order, tripNode);
      TripMeansFall(h, |h| - 1, tripNode);
      assert h[k] == Report(k);
      forall i | 0 <= i < |h| ensures Reports(nodes, h[i]) && h[i].seqNo == i {
        if i < |order| { assert h[i] == Report(i); }
      }
      forall j | k < j < |h| - 1 ensures h[j].node != tripNode {
        if j < |order| { assert h[j] == Report(j); }
      }
    }

    lemma Positions()
      requires Ok()
      ensures View()[0] == Fall() && View()[1] == Late() && View()[2] == Again()
    {
    }

    lemma ReportAt(i: nat)
      requires Ok() && i < |order|
      ensures View()[|order| + 2 - i] == Report(i)
    {
    }

    /** A transition of the view is one of those listed. */
    lemma Listed(t: StateTransition) returns (i: nat)
      requires Ok() && t in View()
      ensures t == Fall() || t == Late() || t == Again() || (i < |order| && t == Report(i))
    {
      Positions();
      var j :| 0 <= j < |order| + 3 && View()[j] == t;
      i := if j < 3 then 0 else |order| + 2 - j;
      if j >= 3 { ReportAt(i); }
    }

    /** Nothing is stamped before its node's place in the order. */
    lemma StampedInOrder(t: StateTransition)
      requires Ok() && t in View()
      ensures t.node in order && Stamp(IndexIn(order, t.node)) <= t.tsNs <= Fall().tsNs
      ensures t.node == n ==> t == Report(IndexIn(order, n)) || t == Late()
    {
      var i := Listed(t);
      hide Scenario.View, Scenario.Run;
    }

    /** What a lookup of the node at position `i` finds. */
    ghost function Found(i: nat, beforeTs: nat): StateTransition
      requires Ok() && i < |order|
    {
      if order[i] == n && Stamp(ia) + 1 < beforeTs then Late()
      else if order[i] == m && again < beforeTs then Again()
      else Report(i)
    }

    lemma Finds(i: nat, beforeTs: nat)
      requires Ok() && i < |order| && Stamp(i) < beforeTs <= Fall().tsNs
      ensures LastForNodeBefore(View(), order[i], beforeTs) == Some(Found(i, beforeTs))
    {
      Positions();
      hide Scenario.View, Scenario.Run;
      var k := if order[i] == n && Stamp(ia) + 1 < beforeTs then 1
               else if order[i] == m && again < beforeTs then 2
               else |order| + 2 - i;
      ReportAt(i);
      forall j | 0 <= j < k ensures View()[j].node != order[i] || View()[j].tsNs >= beforeTs {
        if j >= 3 {
          var l := |order| + 2 - j;
          ReportAt(l);
          assert i < l && order[i] != order[l];
        }
      }
      hide LastForNodeBefore;
      FoundAt(View(), k, order[i], beforeTs);
    }

    lemma FindsSomething(x: NodeId, beforeTs: nat)
      requires Ok() && x in order && Stamp(IndexIn(order, x)) < beforeTs
      ensures LastForNodeBefore(View(), x, beforeTs).Some?
    {
      var i := IndexIn(order, x);
      ReportAt(i);
      hide Scenario.View, Scenario.Run;
      assert View()[|order| + 2 - i] in View();
    }

    // -------------------------------------------------------------- edges among the reporting nodes

    /** `live` holds the edges between nodes of the order, and all of them point forwards. */
    ghost predicate Spans(live: seq<DependencyEdge>, edges: seq<DependencyEdge>) {
      && TopologicalOrder(live, order)
      && forall e :: e in live <==> e in edges && e.from in order && e.to in order
    }

    /** The instance at which the walk may meet a node beyond `n`. */
    ghost function Met(x: NodeId): StateTransition
      requires Ok() && x in order
    {
      if x == tripNode then Fall() else Report(IndexIn(order, x))
    }

    lemma {:induction false} Meets(live: seq<DependencyEdge>, edges: seq<DependencyEdge>, x: NodeId,
                                   path: seq<DependencyEdge>)
      requires Ok() && Spans(live, edges) && x in order && IsPath(live, x, path, tripNode)
      requires IndexIn(order, n) < IndexIn(order, x)
      ensures UpstreamInstance(edges, View(), Fall(), Met(x))
      decreases |path|
    {
      if x != tripNode {
        var e := path[0];
        Meets(live, edges, e.to, path[1..]);
        Finds(IndexIn(order, x), Met(e.to).tsNs);
        UpstreamExtends(edges, View(), Fall(), Step(e, Met(e.to), Report(IndexIn(order, x))));
      }
    }

    /** The step from `n` at its instance `x` back to `m`. */
    ghost function Up(up: DependencyEdge, x: StateTransition): Step
      requires Ok()
    {
      Step(up, x, Found(IndexIn(order, m), x.tsNs))
    }

    /** `n`, met at `x` on the way down `e`, leads back to `m`. */
    lemma StepsBack(live: seq<DependencyEdge>, edges: seq<DependencyEdge>, e: DependencyEdge, up: DependencyEdge,
                    x: StateTransition)
      requires Ok() && Spans(live, edges) && e in live && e.from == n && Reaches(live, e.to, tripNode)
      requires up in live && up.from == m && up.to == n
      requires IndexIn(order, e.to) >= ia && x == Found(IndexIn(order, n), Met(e.to).tsNs)
      ensures Upstream(edges, View(), Fall(), Up(up, x)) && x.node == n
      ensures Genuine(edges, View(), Up(up, x))
    {
      hide LastForNodeBefore, Upstream, UpstreamInstance;
      var path :| IsPath(live, e.to, path, tripNode);
      Meets(live, edges, e.to, path);
      Finds(IndexIn(order, n), Met(e.to).tsNs);
      UpstreamExtends(edges, View(), Fall(), Step(e, Met(e.to), x));
      Finds(IndexIn(order, m), x.tsNs);
      UpstreamExtends(edges, View(), Fall(), Up(up, x));
    }
  }
}
