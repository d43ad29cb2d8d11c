/** The runs a node table can produce. */
module Runs {
  import opened Basics
  import opened Ingest
  import opened CausalTypes
  import opened History
  import opened Graphs

  type NodeTable = map<NodeId, NodeMatcher>

  /** Some frame is classified onto the node. A ROS 2 matcher on the pose port never sees one: the parser
      takes every datagram to that port for a pose, or rejects it. */
  predicate CanReport(nodes: NodeTable, id: NodeId) {
    id in nodes && nodes[id] != Ros2Port(FANUC_POSE_PORT)
  }

  /** A high level from a node that has levels. */
  function High(nodes: NodeTable, id: NodeId): Option<bool> {
    if id in nodes && nodes[id].ProfinetFrame? then Some(true) else None
  }

  /** PROFINET nodes report a level, and the others never do. */
  predicate Reports(nodes: NodeTable, t: StateTransition) {
    CanReport(nodes, t.node) && (t.interlock.Some? <==> nodes[t.node].ProfinetFrame?)
  }

  /** The histories the engine can record under this node table. */
  ghost predicate Possible(nodes: NodeTable, h: History) {
    Numbered(h) && forall i :: 0 <= i < |h| ==> Reports(nodes, h[i])
  }

  /** A possible run that ends in a trip of `tripNode`. */
  ghost predicate TripRun(nodes: NodeTable, h: History, tripNode: NodeId) {
    h != [] && Possible(nodes, h) && TripAt(h, |h| - 1, tripNode)
  }

  /** The trip node carries an interlock, as validation demands. */
  predicate WatchesInterlock(nodes: NodeTable, tripNode: NodeId) {
    tripNode in nodes && nodes[tripNode].ProfinetFrame?
  }

  lemma RecordedCanReport(nodes: NodeTable, h: History, cap: nat)
    requires h != [] && Possible(nodes, h)
    ensures CanReport(nodes, h[|h| - 1].node)
    ensures forall t :: t in Newest(h, cap) ==> CanReport(nodes, t.node)
  {
    var view := Newest(h, cap);
    assert Reports(nodes, h[|h| - 1]);
    forall t | t in view ensures CanReport(nodes, t.node) {
      var i :| 0 <= i < |view| && view[i] == t;
      assert Reports(nodes, h[|h| - 1 - i]);
    }
  }

  /** Some edge leads into the trip node from a node that can report. */
  ghost predicate Fed(nodes: NodeTable, edges: seq<DependencyEdge>, tripNode: NodeId) {
    exists e :: e in edges && e.to == tripNode && CanReport(nodes, e.from)
  }

  // ---------------------------------------------------------------- the edges that can carry anything

  /** The edges whose two ends can both report. */
  function Live(nodes: NodeTable, edges: seq<DependencyEdge>): (r: seq<DependencyEdge>)
    ensures forall e :: e in r <==> e in edges && CanReport(nodes, e.from) && CanReport(nodes, e.to)
  {
    if edges == [] then []
    else
      var init, e := edges[..|edges| - 1], edges[|edges| - 1];
      assert edges == init + [e];
      Live(nodes, init) + if CanReport(nodes, e.from) && CanReport(nodes, e.to) then [e] else []
  }

  lemma LiveWiredIn(nodes: NodeTable, edges: seq<DependencyEdge>, edges': seq<DependencyEdge>)
    requires WiredIn(edges, edges')
    ensures WiredIn(Live(nodes, edges), Live(nodes, edges'))
  {
  }

  ghost predicate Before(order: seq<NodeId>, a: NodeId, b: NodeId) {
    exists i, j :: 0 <= i < j < |order| && order[i] == a && order[j] == b
  }

  lemma BeforeMeansIndex(order: seq<NodeId>, a: NodeId, b: NodeId)
    requires Distinct(order) && a in order && b in order
    ensures Before(order, a, b) <==> IndexIn(order, a) < IndexIn(order, b)
  {
  }

  /** The nodes of `order` that can report, in that order. */
  lemma {:induction false} ReportingOrder(nodes: NodeTable, order: seq<NodeId>) returns (r: seq<NodeId>)
    requires Distinct(order)
    ensures Distinct(r) && forall x :: x in r <==> x in order && CanReport(nodes, x)
    ensures forall a, b :: a in r && b in r && Before(order, a, b) ==> Before(r, a, b)
  {
    if order == [] {
      r := [];
    } else {
      var k := |order| - 1;
      var init := ReportingOrder(nodes, order[..k]);
      assert order == order[..k] + [order[k]];
      r := if CanReport(nodes, order[k]) then init + [order[k]] else init;
      forall a, b | a in r && b in r && Before(order, a, b) ensures Before(r, a, b) {
        var i, j :| 0 <= i < j < |order| && order[i] == a && order[j] == b;
        assert a in order[..k] by { assert order[..k][i] == a; }
        if j < k {
          assert order[..k][i] == a && order[..k][j] == b;
          var i', j' :| 0 <= i' < j' < |init| && init[i'] == a && init[j'] == b;
          assert r[i'] == a && r[j'] == b;
        } else {
          var i' :| 0 <= i' < |init| && init[i'] == a;
          assert r[i'] == a && r[|init|] == b;
        }
      }
    }
  }

  lemma LiveOrder(nodes: NodeTable, edges: seq<DependencyEdge>, order: seq<NodeId>) returns (r: seq<NodeId>)
    requires TopologicalOrder(edges, order)
    ensures TopologicalOrder(Live(nodes, edges), r) && forall x :: x in r ==> CanReport(nodes, x)
  {
    r := ReportingOrder(nodes, order);
    forall e | e in Live(nodes, edges)
      ensures e.from in r && e.to in r && IndexIn(r, e.from) < IndexIn(r, e.to)
    {
      BeforeMeansIndex(order, e.from, e.to);
      BeforeMeansIndex(r, e.from, e.to);
    }
  }
}
