/** The declared graph: paths, topological orders, and the two shapes the verdict theorems speak of. */
module Graphs {
  import opened CausalTypes

  ghost predicate HasEdge(edges: seq<DependencyEdge>, a: NodeId, b: NodeId) {
    exists e :: e in edges && e.from == a && e.to == b
  }

  ghost predicate IsPath(edges: seq<DependencyEdge>, n: NodeId, path: seq<DependencyEdge>, target: NodeId)
    decreases |path|
  {
    if path == [] then n == target
    else path[0] in edges && path[0].from == n && IsPath(edges, path[0].to, path[1..], target)
  }

  ghost predicate Reaches(edges: seq<DependencyEdge>, n: NodeId, target: NodeId) {
    exists path :: IsPath(edges, n, path, target)
  }

  lemma ReachesBack(edges: seq<DependencyEdge>, e: DependencyEdge, target: NodeId)
    requires e in edges && Reaches(edges, e.to, target)
    ensures Reaches(edges, e.from, target)
  {
    var path :| IsPath(edges, e.to, path, target);
    assert ([e] + path)[1..] == path;
    assert IsPath(edges, e.from, [e] + path, target);
  }

  ghost function IndexIn(order: seq<NodeId>, n: NodeId): (i: nat)
    requires n in order
    ensures i < |order| && order[i] == n
  {
    var i :| 0 <= i < |order| && order[i] == n; i
  }

  ghost predicate Distinct(order: seq<NodeId>) {
    forall i, j :: 0 <= i < j < |order| ==> order[i] != order[j]
  }

  /** `order` lists every endpoint once, each edge pointing forwards. */
  ghost predicate TopologicalOrder(edges: seq<DependencyEdge>, order: seq<NodeId>) {
    && Distinct(order)
    && forall e :: e in edges ==> e.from in order && e.to in order && IndexIn(order, e.from) < IndexIn(order, e.to)
  }

  lemma {:induction false} PathAscends(edges: seq<DependencyEdge>, order: seq<NodeId>, n: NodeId,
                                       path: seq<DependencyEdge>, target: NodeId)
    requires TopologicalOrder(edges, order) && n in order && IsPath(edges, n, path, target)
    ensures target in order && IndexIn(order, n) <= IndexIn(order, target)
    ensures path != [] ==> IndexIn(order, n) < IndexIn(order, target)
    decreases |path|
  {
    if path != [] {
      PathAscends(edges, order, path[0].to, path[1..], target);
    }
  }

  // ---------------------------------------------------------------- funnels

  /** `m` feeds `n`, and `n` feeds `a` and `b`, which both lead to the trip node. */
  ghost predicate Fork(edges: seq<DependencyEdge>, tripNode: NodeId, m: NodeId, n: NodeId, a: NodeId, b: NodeId) {
    && HasEdge(edges, m, n) && HasEdge(edges, n, a) && HasEdge(edges, n, b)
    && Reaches(edges, a, tripNode) && Reaches(edges, b, tripNode)
  }

  /** A node with upstream dependencies feeds at most one node on the way to the trip node. */
  ghost predicate Funnel(edges: seq<DependencyEdge>, tripNode: NodeId) {
    forall m, n, a, b :: Fork(edges, tripNode, m, n, a, b) ==> a == b
  }

  // ---------------------------------------------------------------- wires, apart from their budgets

  /** Every wire of `edges` is one of `edges'`, possibly under another budget. */
  ghost predicate WiredIn(edges: seq<DependencyEdge>, edges': seq<DependencyEdge>) {
    forall e :: e in edges ==> HasEdge(edges', e.from, e.to)
  }

  lemma {:induction false} PathCarriesOver(edges: seq<DependencyEdge>, edges': seq<DependencyEdge>, n: NodeId,
                                           path: seq<DependencyEdge>, target: NodeId)
    requires WiredIn(edges, edges') && IsPath(edges, n, path, target)
    ensures Reaches(edges', n, target)
    decreases |path|
  {
    if path == [] {
      assert IsPath(edges', n, [], target);
    } else {
      PathCarriesOver(edges, edges', path[0].to, path[1..], target);
      var e :| e in edges' && e.from == n && e.to == path[0].to;
      ReachesBack(edges', e, target);
    }
  }

  lemma ForkCarriesOver(edges: seq<DependencyEdge>, edges': seq<DependencyEdge>, tripNode: NodeId,
                        m: NodeId, n: NodeId, a: NodeId, b: NodeId)
    requires WiredIn(edges, edges') && Fork(edges, tripNode, m, n, a, b)
    ensures Fork(edges', tripNode, m, n, a, b)
  {
    var pa :| IsPath(edges, a, pa, tripNode);
    PathCarriesOver(edges, edges', a, pa, tripNode);
    var pb :| IsPath(edges, b, pb, tripNode);
    PathCarriesOver(edges, edges', b, pb, tripNode);
  }

  lemma FunnelCarriesOver(edges: seq<DependencyEdge>, edges': seq<DependencyEdge>, tripNode: NodeId)
    requires WiredIn(edges', edges) && Funnel(edges, tripNode)
    ensures Funnel(edges', tripNode)
  {
    hide WiredIn, Fork;
    forall m, n, a, b | Fork(edges', tripNode, m, n, a, b) ensures a == b {
      ForkCarriesOver(edges', edges, tripNode, m, n, a, b);
    }
  }

  // ---------------------------------------------------------------- distinct nodes fit in 32 bits

  lemma {:induction false} IntervalCardinality(s: set<int>, n: nat)
    requires forall x :: x in s ==> 0 <= x < n
    ensures |s| <= n
  {
    if n == 0 {
      assert forall x :: x !in s;
      assert s == {};
    } else {
      IntervalCardinality(s - {n - 1}, n - 1);
    }
  }

  lemma {:induction false} DistinctCardinality(order: seq<NodeId>) returns (s: set<int>)
    requires Distinct(order)
    ensures |s| == |order| && forall x :: x in s <==> x in order
  {
    if order == [] {
      s := {};
    } else {
      var k := |order| - 1;
      var rest := DistinctCardinality(order[..k]);
      assert order == order[..k] + [order[k]];
      s := rest + {order[k]};
    }
  }

  /** There are no more distinct node ids than 32 bits allow. */
  lemma DistinctNodesFit(order: seq<NodeId>)
    requires Distinct(order)
    ensures |order| <= 0x1_0000_0000
  {
    var s := DistinctCardinality(order);
    IntervalCardinality(s, 0x1_0000_0000);
  }
}
