/** Fail-closed validation of a decoded manifest, with the iterative three-colour cycle check. */
module Manifest {
  import opened Basics
  import opened CausalTypes
  import opened Graphs

  datatype NodeCfg = NodeCfg(id: NodeId, matcher: NodeMatcher)

  datatype ManifestCfg = ManifestCfg(nodes: seq<NodeCfg>, edges: seq<DependencyEdge>, tripNode: NodeId)

  datatype ManifestError =
    | Empty
    | DuplicateNode(id: NodeId)
    | TripNodeUndeclared(id: NodeId)
    | TripNodeNotInterlock(id: NodeId)
    | DanglingNode(id: NodeId)
    | BadBudget(from: NodeId, to: NodeId, wcetNs: u64)
    | DependencyCycle(id: NodeId)

  /** 60 seconds. */
  const MAX_SANE_WCET_NS: u64 := 60_000_000_000

  // ---------------------------------------------------------------- cycles

  ghost predicate OnCycle(edges: seq<DependencyEdge>, n: NodeId) {
    exists path :: path != [] && IsPath(edges, n, path, n)
  }

  /** No directed cycle, self-loops included. */
  ghost predicate Acyclic(edges: seq<DependencyEdge>) {
    forall n :: !OnCycle(edges, n)
  }

  /** The children of `n`, in declaration order. */
  function Successors(edges: seq<DependencyEdge>, n: NodeId): (r: seq<NodeId>)
    ensures forall c :: c in r <==> HasEdge(edges, n, c)
  {
    if edges == [] then []
    else
      var init, e := edges[..|edges| - 1], edges[|edges| - 1];
      assert edges == init + [e];
      Successors(init, n) + if e.from == n then [e.to] else []
  }

  lemma OrderMeansAcyclic(edges: seq<DependencyEdge>, order: seq<NodeId>)
    requires TopologicalOrder(edges, order)
    ensures Acyclic(edges)
  {
    forall n ensures !OnCycle(edges, n) {
      if OnCycle(edges, n) {
        var path :| path != [] && IsPath(edges, n, path, n);
        PathAscends(edges, order, n, path, n);
      }
    }
  }

  lemma {:induction false} PathSnoc(edges: seq<DependencyEdge>, n: NodeId, path: seq<DependencyEdge>, e: DependencyEdge)
    requires IsPath(edges, n, path, e.from) && e in edges
    ensures IsPath(edges, n, path + [e], e.to)
    decreases |path|
  {
    if path == [] {
      assert IsPath(edges, e.to, [], e.to);
      assert ([] + [e])[1..] == [];
    } else {
      PathSnoc(edges, path[0].to, path[1..], e);
      assert (path + [e])[1..] == path[1..] + [e];
    }
  }

  /** A stack frame: a gray node and the index of its next child. */
  datatype Frame = Frame(node: NodeId, next: nat)

  function Nodes(stack: seq<Frame>): (r: seq<NodeId>)
    ensures |r| == |stack| && forall k :: 0 <= k < |stack| ==> r[k] == stack[k].node
  {
    seq(|stack|, k requires 0 <= k < |stack| => stack[k].node)
  }

  ghost predicate Linked(edges: seq<DependencyEdge>, nodes: seq<NodeId>) {
    forall k :: 0 < k < |nodes| ==> HasEdge(edges, nodes[k - 1], nodes[k])
  }

  /** Black nodes, in finishing order: each after all of its successors. */
  ghost predicate Finished(edges: seq<DependencyEdge>, finish: seq<NodeId>) {
    Distinct(finish) && forall i, c :: 0 <= i < |finish| && c in Successors(edges, finish[i]) ==> c in finish[..i]
  }

  /** The children the frame has dealt with are black, or wait above it on the stack. */
  ghost predicate FrameOk(edges: seq<DependencyEdge>, f: Frame, finish: seq<NodeId>, above: seq<NodeId>) {
    && f.next <= |Successors(edges, f.node)|
    && forall j :: 0 <= j < f.next ==> Successors(edges, f.node)[j] in finish || Successors(edges, f.node)[j] in above
  }

  ghost predicate FramesOk(edges: seq<DependencyEdge>, stack: seq<Frame>, finish: seq<NodeId>) {
    forall k :: 0 <= k < |stack| ==> FrameOk(edges, stack[k], finish, Nodes(stack)[k + 1..])
  }

  /** Gray (1) nodes are exactly the stack, black (2) nodes exactly the finished ones, white ones absent. */
  ghost predicate Colours(color: map<NodeId, nat>, nodes: seq<NodeId>, finish: seq<NodeId>) {
    && Distinct(nodes)
    && (forall n :: n in nodes <==> n in color && color[n] == 1)
    && (forall n :: n in finish <==> n in color && color[n] != 1)
    && (forall n :: n in color ==> color[n] == 1 || color[n] == 2)
  }

  ghost predicate DfsInv(edges: seq<DependencyEdge>, color: map<NodeId, nat>, stack: seq<Frame>, finish: seq<NodeId>) {
    && Linked(edges, Nodes(stack)) && Finished(edges, finish)
    && FramesOk(edges, stack, finish) && Colours(color, Nodes(stack), finish)
  }

  lemma {:induction false} StackReachesTop(edges: seq<DependencyEdge>, nodes: seq<NodeId>, k: nat)
    returns (path: seq<DependencyEdge>)
    requires Linked(edges, nodes) && k < |nodes|
    ensures IsPath(edges, nodes[k], path, nodes[|nodes| - 1])
    decreases |nodes| - k
  {
    if k + 1 == |nodes| {
      path := [];
    } else {
      var rest := StackReachesTop(edges, nodes, k + 1);
      assert HasEdge(edges, nodes[k + 1 - 1], nodes[k + 1]);
      var e :| e in edges && e.from == nodes[k] && e.to == nodes[k + 1];
      path := [e] + rest;
      assert path[1..] == rest;
    }
  }

  /** A gray child closes a cycle through itself. */
  lemma BackEdgeIsCycle(edges: seq<DependencyEdge>, color: map<NodeId, nat>, stack: seq<Frame>, finish: seq<NodeId>,
                        child: NodeId)
    requires DfsInv(edges, color, stack, finish) && stack != []
    requires child in color && color[child] == 1 && HasEdge(edges, stack[|stack| - 1].node, child)
    ensures OnCycle(edges, child)
  {
    hide Finished, FramesOk, IsPath;
    var nodes := Nodes(stack);
    var k :| 0 <= k < |nodes| && nodes[k] == child;
    var path := StackReachesTop(edges, nodes, k);
    var e :| e in edges && e.from == nodes[|nodes| - 1] && e.to == child;
    PathSnoc(edges, child, path, e);
    assert path + [e] != [];
  }

  /** What waits above a frame may grow, and the frame may move on over a child already dealt with. */
  lemma FrameStays(edges: seq<DependencyEdge>, f: Frame, f': Frame, finish: seq<NodeId>, above: seq<NodeId>,
                   more: seq<NodeId>)
    requires FrameOk(edges, f, finish, above) && f'.node == f.node
    requires f'.next == f.next || f'.next <= |Successors(edges, f.node)|
    requires forall j :: f.next <= j < f'.next ==>
      Successors(edges, f.node)[j] in finish || Successors(edges, f.node)[j] in more
    ensures FrameOk(edges, f', finish, above + more)
  {
    hide Successors;
  }

  lemma AboveGrows(nodes: seq<NodeId>, more: seq<NodeId>, i: nat)
    requires i < |nodes|
    ensures (nodes + more)[i + 1..] == nodes[i + 1..] + more
  {
  }

  lemma FreshFrame(edges: seq<DependencyEdge>, f: Frame, finish: seq<NodeId>, above: seq<NodeId>)
    requires f.next == 0
    ensures FrameOk(edges, f, finish, above)
  {
  }

  /** Dealing with one more child of the top frame: it is black, or goes on the stack. */
  lemma FramesAdvance(edges: seq<DependencyEdge>, stack: seq<Frame>, stack': seq<Frame>, finish: seq<NodeId>,
                      pushed: seq<Frame>)
    requires FramesOk(edges, stack, finish) && stack != []
    requires var top := stack[|stack| - 1];
      && stack' == stack[|stack| - 1 := Frame(top.node, top.next + 1)] + pushed
      && top.next < |Successors(edges, top.node)|
      && (Successors(edges, top.node)[top.next] in finish || Successors(edges, top.node)[top.next] in Nodes(pushed))
    requires forall f :: f in pushed ==> f.next == 0
    ensures FramesOk(edges, stack', finish) && Nodes(stack') == Nodes(stack) + Nodes(pushed)
  {
    hide Successors, FrameOk;
    var nodes, more := Nodes(stack), Nodes(pushed);
    assert Nodes(stack') == nodes + more;
    forall i | 0 <= i < |stack'| ensures FrameOk(edges, stack'[i], finish, Nodes(stack')[i + 1..]) {
      if i < |stack| {
        AboveGrows(nodes, more, i);
        FrameStays(edges, stack[i], stack'[i], finish, nodes[i + 1..], more);
      } else {
        FreshFrame(edges, pushed[i - |stack|], finish, Nodes(stack')[i + 1..]);
      }
    }
  }

  lemma AdvanceKeeps(edges: seq<DependencyEdge>, color: map<NodeId, nat>, stack: seq<Frame>, finish: seq<NodeId>,
                     stack': seq<Frame>)
    requires DfsInv(edges, color, stack, finish) && stack != []
    requires var top := stack[|stack| - 1];
      && top.next < |Successors(edges, top.node)|
      && Successors(edges, top.node)[top.next] in color && color[Successors(edges, top.node)[top.next]] == 2
      && stack' == stack[|stack| - 1 := Frame(top.node, top.next + 1)]
    ensures DfsInv(edges, color, stack', finish)
  {
    hide Successors, FramesOk, Linked, Finished;
    assert stack' == stack' + [];
    FramesAdvance(edges, stack, stack', finish, []);
    assert Nodes(stack') == Nodes(stack);
  }

  lemma PushKeeps(edges: seq<DependencyEdge>, color: map<NodeId, nat>, stack: seq<Frame>, finish: seq<NodeId>,
                  child: NodeId, stack': seq<Frame>)
    requires DfsInv(edges, color, stack, finish) && stack != []
    requires var top := stack[|stack| - 1];
      && top.next < |Successors(edges, top.node)|
      && Successors(edges, top.node)[top.next] == child && child !in color
      && stack' == stack[|stack| - 1 := Frame(top.node, top.next + 1)] + [Frame(child, 0)]
    ensures DfsInv(edges, color[child := 1], stack', finish)
  {
    var k := |stack| - 1;
    assert HasEdge(edges, Nodes(stack)[k], child) by { assert child in Successors(edges, stack[k].node); }
    assert Nodes([Frame(child, 0)]) == [child];
    hide Successors, FramesOk, Finished, HasEdge;
    FramesAdvance(edges, stack, stack', finish, [Frame(child, 0)]);
    assert Nodes(stack') == Nodes(stack) + [child];
  }

  lemma FramesAfterPop(edges: seq<DependencyEdge>, stack: seq<Frame>, finish: seq<NodeId>)
    requires FramesOk(edges, stack, finish) && stack != []
    ensures var k := |stack| - 1; FramesOk(edges, stack[..k], finish + [stack[k].node])
  {
    hide Successors;
    var k := |stack| - 1;
    var s := stack[..k];
    forall i | 0 <= i < |s| ensures FrameOk(edges, s[i], finish + [stack[k].node], Nodes(s)[i + 1..]) {
      assert FrameOk(edges, stack[i], finish, Nodes(stack)[i + 1..]);
      assert Nodes(stack)[i + 1..] == Nodes(s)[i + 1..] + [stack[k].node];
    }
  }

  lemma FinishedAfterPop(edges: seq<DependencyEdge>, finish: seq<NodeId>, f: Frame)
    requires Finished(edges, finish) && f.node !in finish
    requires FrameOk(edges, f, finish, []) && f.next == |Successors(edges, f.node)|
    ensures Finished(edges, finish + [f.node])
  {
    hide Successors;
    var g := finish + [f.node];
    forall i, c | 0 <= i < |g| && c in Successors(edges, g[i]) ensures c in g[..i] {
      if i < |finish| {
        assert g[..i] == finish[..i] && c in Successors(edges, finish[i]);
      } else {
        var j :| 0 <= j < |Successors(edges, f.node)| && Successors(edges, f.node)[j] == c;
        assert g[..i] == finish;
      }
    }
  }

  lemma PopKeeps(edges: seq<DependencyEdge>, color: map<NodeId, nat>, stack: seq<Frame>, finish: seq<NodeId>)
    requires DfsInv(edges, color, stack, finish) && stack != []
    requires stack[|stack| - 1].next >= |Successors(edges, stack[|stack| - 1].node)|
    ensures var node := stack[|stack| - 1].node;
      DfsInv(edges, color[node := 2], stack[..|stack| - 1], finish + [node])
  {
    hide Successors, HasEdge;
    var k := |stack| - 1;
    var node := stack[k].node;
    assert Nodes(stack)[k] == node;
    FramesAfterPop(edges, stack, finish);
    assert FrameOk(edges, stack[k], finish, Nodes(stack)[k + 1..]);
    FinishedAfterPop(edges, finish, stack[k]);
    hide FramesOk, Finished, FrameOk, Linked, Colours;
    assert Nodes(stack[..k]) == Nodes(stack)[..k];
    ColoursAfterPop(edges, color, Nodes(stack), finish);
  }

  lemma ColoursAfterPop(edges: seq<DependencyEdge>, color: map<NodeId, nat>, nodes: seq<NodeId>, finish: seq<NodeId>)
    requires Colours(color, nodes, finish) && Linked(edges, nodes) && nodes != []
    ensures var k := |nodes| - 1;
      Colours(color[nodes[k] := 2], nodes[..k], finish + [nodes[k]]) && Linked(edges, nodes[..k])
  {
    hide HasEdge;
    assert nodes == nodes[..|nodes| - 1] + [nodes[|nodes| - 1]];
  }

  lemma NothingVisited(edges: seq<DependencyEdge>)
    ensures DfsInv(edges, map[], [], [])
  {
  }

  lemma ColoursSeen(edges: seq<DependencyEdge>, color: map<NodeId, nat>, stack: seq<Frame>, finish: seq<NodeId>)
    requires DfsInv(edges, color, stack, finish)
    ensures forall n :: n in color ==> color[n] == 1 || color[n] == 2
    ensures stack != [] ==> stack[|stack| - 1].node in color
  {
    hide Linked, Finished, FramesOk;
    if stack != [] {
      assert Nodes(stack)[|stack| - 1] == stack[|stack| - 1].node;
    }
  }

  lemma AllBlack(edges: seq<DependencyEdge>, color: map<NodeId, nat>, finish: seq<NodeId>)
    requires DfsInv(edges, color, [], finish)
    ensures Finished(edges, finish) && forall n :: n in color ==> n in finish
  {
    hide Linked, Finished, FramesOk;
  }

  lemma StartKeeps(edges: seq<DependencyEdge>, color: map<NodeId, nat>, finish: seq<NodeId>, start: NodeId)
    requires DfsInv(edges, color, [], finish) && start !in color
    ensures DfsInv(edges, color[start := 1], [Frame(start, 0)], finish)
  {
    hide Successors, Finished;
    assert Nodes([Frame(start, 0)]) == [start];
  }

  /** Once everything is black, the reversed finishing order is topological. */
  lemma FinishIsOrder(edges: seq<DependencyEdge>, finish: seq<NodeId>) returns (order: seq<NodeId>)
    requires Finished(edges, finish)
    requires forall e :: e in edges ==> e.from in finish && e.to in finish
    ensures TopologicalOrder(edges, order)
  {
    var n := |finish|;
    order := seq(n, i requires 0 <= i < n => finish[n - 1 - i]);
    forall e | e in edges
      ensures e.from in order && e.to in order && IndexIn(order, e.from) < IndexIn(order, e.to)
    {
      var i :| 0 <= i < n && finish[i] == e.from;
      assert order[n - 1 - i] == e.from;
      assert HasEdge(edges, e.from, e.to);
      assert e.to in finish[..i];
      var j :| 0 <= j < i && finish[..i][j] == e.to;
      assert order[n - 1 - j] == e.to;
      assert Distinct(order);
    }
  }

  /** The adjacency list and the endpoints collected from some edges. */
  ghost predicate Collected(edges: seq<DependencyEdge>, adj: map<NodeId, seq<NodeId>>, all: set<NodeId>) {
    && (forall n: NodeId :: Successors(edges, n) == if n in adj then adj[n] else [])
    && all == (set e | e in edges :: e.from) + (set e | e in edges :: e.to)
  }

  lemma CollectNext(edges: seq<DependencyEdge>, adj: map<NodeId, seq<NodeId>>, all: set<NodeId>, e: DependencyEdge)
    requires Collected(edges, adj, all)
    ensures var children := (if e.from in adj then adj[e.from] else []) + [e.to];
      Collected(edges + [e], adj[e.from := children], all + {e.from, e.to})
  {
    assert (edges + [e])[..|edges|] == edges;
  }

  /** The first loop of the cycle check. */
  method CollectAdjacency(edges: seq<DependencyEdge>) returns (adj: map<NodeId, seq<NodeId>>, all: set<NodeId>)
    ensures Collected(edges, adj, all)
  {
    adj, all := map[], {};
    assert Collected(edges[..0], adj, all);
    hide Collected;
    for i := 0 to |edges|
      invariant Collected(edges[..i], adj, all)
    {
      var e := edges[i];
      CollectNext(edges[..i], adj, all, e);
      assert edges[..i + 1] == edges[..i] + [e];
      adj := adj[e.from := (if e.from in adj then adj[e.from] else []) + [e.to]];
      all := all + {e.from, e.to};
    }
    assert edges[..|edges|] == edges;
  }

  /** `None` when the graph has no cycle; otherwise the first node found on a back edge. The start nodes
      come in an arbitrary order. */
  method DetectCycle(edges: seq<DependencyEdge>) returns (r: Option<NodeId>, ghost order: seq<NodeId>)
    ensures r.None? <==> Acyclic(edges)
    ensures r.None? ==> TopologicalOrder(edges, order)
    ensures r.Some? ==> OnCycle(edges, r.value)
  {
    hide Successors, DfsInv, TopologicalOrder, OnCycle;
    order := [];
    var adj, all := CollectAdjacency(edges);
    var color: map<NodeId, nat> := map[];
    ghost var finish: seq<NodeId> := [];
    var todo := all;
    NothingVisited(edges);
    while todo != {}
      invariant todo <= all && color.Keys <= all
      invariant DfsInv(edges, color, [], finish)
      invariant all - todo <= color.Keys
      decreases todo
    {
      var start :| start in todo;
      todo := todo - {start};
      if start in color {
        continue;
      }
      StartKeeps(edges, color, finish, start);
      var stack := [Frame(start, 0)];
      color := color[start := 1];
      while stack != []
        invariant DfsInv(edges, color, stack, finish)
        invariant color.Keys <= all && all - todo <= color.Keys
        decreases all - color.Keys, |stack|,
                  if stack == [] then 0 else |Successors(edges, stack[|stack| - 1].node)| - stack[|stack| - 1].next
      {
        ColoursSeen(edges, color, stack, finish);
        var Frame(node, idx) := stack[|stack| - 1];
        var children := if node in adj then adj[node] else [];
        if idx < |children| {
          var child := children[idx];
          assert child in Successors(edges, node);
          assert child in all;
          var c := if child in color then color[child] else 0;
          if c == 1 {
            BackEdgeIsCycle(edges, color, stack, finish, child);
            return Some(child), order;
          } else if c == 0 {
            ghost var was := stack;
            stack := stack[|stack| - 1 := Frame(node, idx + 1)] + [Frame(child, 0)];
            PushKeeps(edges, color, was, finish, child, stack);
            assert child in all - color.Keys;
            assert all - color[child := 1].Keys < all - color.Keys;
            color := color[child := 1];
          } else {
            ghost var was := stack;
            stack := stack[|stack| - 1 := Frame(node, idx + 1)];
            AdvanceKeeps(edges, color, was, finish, stack);
          }
        } else {
          PopKeeps(edges, color, stack, finish);
          assert color[node := 2].Keys == color.Keys;
          color := color[node := 2];
          stack := stack[..|stack| - 1];
          finish := finish + [node];
        }
      }
    }
    AllBlack(edges, color, finish);
    hide Finished;
    order := FinishIsOrder(edges, finish);
    OrderMeansAcyclic(edges, order);
    r := None;
  }

  // ---------------------------------------------------------------- validation

  ghost predicate DistinctIds(nodes: seq<NodeCfg>) {
    forall i, j :: 0 <= i < j < |nodes| ==> nodes[i].id != nodes[j].id
  }

  ghost predicate Declares(nodes: seq<NodeCfg>, id: NodeId) {
    exists i :: 0 <= i < |nodes| && nodes[i].id == id
  }

  ghost predicate DeclaresInterlock(nodes: seq<NodeCfg>, id: NodeId) {
    exists i :: 0 <= i < |nodes| && nodes[i].id == id && nodes[i].matcher.ProfinetFrame?
  }

  ghost predicate EdgeOk(nodes: seq<NodeCfg>, e: DependencyEdge) {
    Declares(nodes, e.from) && Declares(nodes, e.to) && 0 < e.wcetNs <= 60_000_000_000
  }

  ghost predicate EdgesOk(nodes: seq<NodeCfg>, edges: seq<DependencyEdge>) {
    forall i :: 0 <= i < |edges| ==> EdgeOk(nodes, edges[i])
  }

  /** The manifests that may be run. */
  ghost predicate Acceptable(cfg: ManifestCfg) {
    && cfg.nodes != [] && DistinctIds(cfg.nodes)
    && DeclaresInterlock(cfg.nodes, cfg.tripNode)
    && EdgesOk(cfg.nodes, cfg.edges)
    && Acyclic(cfg.edges)
  }

  /** `k` is the first edge at fault. */
  ghost predicate FirstBadEdge(cfg: ManifestCfg, k: nat) {
    k < |cfg.edges| && EdgesOk(cfg.nodes, cfg.edges[..k]) && !EdgeOk(cfg.nodes, cfg.edges[k])
  }

  /** The error names a real fault, and every check that precedes it in the source passed. */
  ghost predicate Justified(cfg: ManifestCfg, e: ManifestError) {
    match e
    case Empty => cfg.nodes == []
    case DuplicateNode(id) =>
      exists j ::
        0 <= j < |cfg.nodes| && DistinctIds(cfg.nodes[..j]) && cfg.nodes[j].id == id && Declares(cfg.nodes[..j], id)
    case TripNodeUndeclared(id) =>
      DistinctIds(cfg.nodes) && cfg.nodes != [] && id == cfg.tripNode && !Declares(cfg.nodes, id)
    case TripNodeNotInterlock(id) =>
      DistinctIds(cfg.nodes) && id == cfg.tripNode && Declares(cfg.nodes, id) && !DeclaresInterlock(cfg.nodes, id)
    case DanglingNode(id) =>
      && DistinctIds(cfg.nodes) && DeclaresInterlock(cfg.nodes, cfg.tripNode)
      && exists k: nat :: FirstBadEdge(cfg, k) && !Declares(cfg.nodes, id)
           && (id == cfg.edges[k].from || (id == cfg.edges[k].to && Declares(cfg.nodes, cfg.edges[k].from)))
    case BadBudget(from, to, wcetNs) =>
      && DistinctIds(cfg.nodes) && DeclaresInterlock(cfg.nodes, cfg.tripNode)
      && exists k: nat :: FirstBadEdge(cfg, k) && Declares(cfg.nodes, from) && Declares(cfg.nodes, to)
           && cfg.edges[k] == DependencyEdge(from, to, wcetNs)
    case DependencyCycle(id) =>
      && DistinctIds(cfg.nodes) && DeclaresInterlock(cfg.nodes, cfg.tripNode)
      && EdgesOk(cfg.nodes, cfg.edges) && OnCycle(cfg.edges, id)
  }

  lemma InterlockIsDeclared(nodes: seq<NodeCfg>, id: NodeId)
    ensures DeclaresInterlock(nodes, id) ==> Declares(nodes, id)
  {
  }

  /** A justified error is never reported for an acceptable manifest. */
  lemma JustifiedMeansUnacceptable(cfg: ManifestCfg, e: ManifestError)
    requires Justified(cfg, e)
    ensures !Acceptable(cfg)
  {
    hide OnCycle;
    match e
    case DuplicateNode(id) =>
      var j :|
        0 <= j < |cfg.nodes| && DistinctIds(cfg.nodes[..j]) && cfg.nodes[j].id == id && Declares(cfg.nodes[..j], id);
      var i :| 0 <= i < j && cfg.nodes[..j][i].id == id;
    case TripNodeUndeclared(id) =>
      InterlockIsDeclared(cfg.nodes, id);
    case DanglingNode(id) =>
      var k: nat :| FirstBadEdge(cfg, k);
      assert !EdgeOk(cfg.nodes, cfg.edges[k]);
    case BadBudget(from, to, wcetNs) =>
      var k: nat :| FirstBadEdge(cfg, k);
      assert !EdgeOk(cfg.nodes, cfg.edges[k]);
    case _ =>
  }

  /** `table` is the node table of `nodes`. */
  ghost predicate TableOf(nodes: seq<NodeCfg>, table: map<NodeId, NodeMatcher>) {
    && (forall id :: id in table <==> Declares(nodes, id))
    && (forall i :: 0 <= i < |nodes| ==> nodes[i].id in table && table[nodes[i].id] == nodes[i].matcher)
  }

  method CollectNodes(nodes: seq<NodeCfg>) returns (r: Result<map<NodeId, NodeMatcher>, NodeId>)
    ensures r.Ok? ==> DistinctIds(nodes) && TableOf(nodes, r.value)
    ensures r.Err? ==> exists j ::
      0 <= j < |nodes| && DistinctIds(nodes[..j]) && nodes[j].id == r.error && Declares(nodes[..j], r.error)
  {
    var table: map<NodeId, NodeMatcher> := map[];
    for i := 0 to |nodes|
      invariant DistinctIds(nodes[..i]) && TableOf(nodes[..i], table)
    {
      var n := nodes[i];
      if n.id in table {
        return Err(n.id);
      }
      TableNext(nodes[..i], table, n);
      assert nodes[..i + 1] == nodes[..i] + [n];
      table := table[n.id := n.matcher];
    }
    assert nodes[..|nodes|] == nodes;
    r := Ok(table);
  }

  lemma TableNext(nodes: seq<NodeCfg>, table: map<NodeId, NodeMatcher>, n: NodeCfg)
    requires DistinctIds(nodes) && TableOf(nodes, table) && n.id !in table
    ensures DistinctIds(nodes + [n]) && TableOf(nodes + [n], table[n.id := n.matcher])
  {
    var more, table' := nodes + [n], table[n.id := n.matcher];
    forall i | 0 <= i < |nodes| ensures nodes[i].id != n.id {
      assert Declares(nodes, nodes[i].id);
    }
    forall id ensures id in table' <==> Declares(more, id) {
      if Declares(nodes, id) {
        var i :| 0 <= i < |nodes| && nodes[i].id == id;
        assert more[i].id == id;
      }
      assert more[|nodes|].id == n.id;
      if Declares(more, id) {
        var i :| 0 <= i < |more| && more[i].id == id;
        if i < |nodes| { assert nodes[i].id == id; }
      }
    }
  }

  /** Fail-closed: validate, and convert into the runtime manifest. */
  method Build(cfg: ManifestCfg) returns (r: Result<DependencyManifest, ManifestError>, ghost order: seq<NodeId>)
    ensures r.Ok? <==> Acceptable(cfg)
    ensures r.Err? ==> Justified(cfg, r.error)
    ensures r.Ok? ==>
      && TableOf(cfg.nodes, r.value.nodes) && r.value.edges == cfg.edges && r.value.tripNode == cfg.tripNode
      && r.value.RevAdjOk() && TopologicalOrder(cfg.edges, order)
      && r.value.tripNode in r.value.nodes && r.value.nodes[r.value.tripNode].ProfinetFrame?
    ensures r.Ok? ==> (r.value.Valid() <==> forall i :: 0 <= i < |cfg.nodes| ==> cfg.nodes[i].matcher.ShiftInRange())
  {
    hide Acyclic, OnCycle, TopologicalOrder, DependencyManifest.RevAdjOk;
    order := [];
    if cfg.nodes == [] {
      return Err(Empty), order;
    }
    var collected := CollectNodes(cfg.nodes);
    if collected.Err? {
      r := Err(DuplicateNode(collected.error));
      JustifiedMeansUnacceptable(cfg, r.error);
      return;
    }
    var nodes := collected.value;
    var tripFault := CheckTripNode(cfg, nodes);
    if tripFault.Some? {
      r := Err(tripFault.value);
      JustifiedMeansUnacceptable(cfg, r.error);
      return;
    }
    var checked := CheckEdges(cfg, nodes);
    if checked.Err? {
      r := Err(checked.error);
      JustifiedMeansUnacceptable(cfg, r.error);
      return;
    }
    var cycle;
    cycle, order := DetectCycle(checked.value);
    if cycle.Some? {
      r := Err(DependencyCycle(cycle.value));
      JustifiedMeansUnacceptable(cfg, r.error);
      return;
    }
    var m := NewManifest(nodes, checked.value, cfg.tripNode);
    TableShifts(cfg.nodes, nodes);
    r := Ok(m);
  }

  lemma TableShifts(nodes: seq<NodeCfg>, table: map<NodeId, NodeMatcher>)
    requires TableOf(nodes, table)
    ensures (forall id :: id in table ==> table[id].ShiftInRange()) <==>
            (forall i :: 0 <= i < |nodes| ==> nodes[i].matcher.ShiftInRange())
  {
    if forall i :: 0 <= i < |nodes| ==> nodes[i].matcher.ShiftInRange() {
      forall id | id in table ensures table[id].ShiftInRange() {
        var i :| 0 <= i < |nodes| && nodes[i].id == id;
      }
    }
  }

  /** The trip node exists and carries an interlock. */
  method CheckTripNode(cfg: ManifestCfg, nodes: map<NodeId, NodeMatcher>) returns (fault: Option<ManifestError>)
    requires cfg.nodes != [] && DistinctIds(cfg.nodes) && TableOf(cfg.nodes, nodes)
    ensures fault.None? ==>
      DeclaresInterlock(cfg.nodes, cfg.tripNode) && cfg.tripNode in nodes && nodes[cfg.tripNode].ProfinetFrame?
    ensures fault.Some? ==> Justified(cfg, fault.value)
  {
    if cfg.tripNode !in nodes {
      return Some(TripNodeUndeclared(cfg.tripNode));
    }
    assert Declares(cfg.nodes, cfg.tripNode);
    ghost var i :| 0 <= i < |cfg.nodes| && cfg.nodes[i].id == cfg.tripNode;
    if !nodes[cfg.tripNode].ProfinetFrame? {
      return Some(TripNodeNotInterlock(cfg.tripNode));
    }
    fault := None;
  }

  /** Endpoints declared, budgets sane. */
  method CheckEdges(cfg: ManifestCfg, nodes: map<NodeId, NodeMatcher>)
    returns (r: Result<seq<DependencyEdge>, ManifestError>)
    requires DistinctIds(cfg.nodes) && TableOf(cfg.nodes, nodes) && DeclaresInterlock(cfg.nodes, cfg.tripNode)
    ensures r.Ok? ==> EdgesOk(cfg.nodes, cfg.edges) && r.value == cfg.edges
    ensures r.Err? ==> Justified(cfg, r.error)
  {
    var edges: seq<DependencyEdge> := [];
    for k := 0 to |cfg.edges|
      invariant EdgesOk(cfg.nodes, cfg.edges[..k]) && edges == cfg.edges[..k]
    {
      var e := cfg.edges[k];
      if e.from !in nodes {
        assert FirstBadEdge(cfg, k);
        return Err(DanglingNode(e.from));
      }
      if e.to !in nodes {
        assert FirstBadEdge(cfg, k);
        return Err(DanglingNode(e.to));
      }
      if e.wcetNs == 0 || e.wcetNs > MAX_SANE_WCET_NS {
        assert FirstBadEdge(cfg, k);
        return Err(BadBudget(e.from, e.to, e.wcetNs));
      }
      edges := edges + [DependencyEdge(e.from, e.to, e.wcetNs)];
    }
    r := Ok(edges);
  }

  // ---------------------------------------------------------------- lint

  datatype ManifestWarning =
    | TripNodeUnreachable(id: NodeId)
    | OrphanNode(id: NodeId)
    | SuspiciouslyTightBudget(edge: DependencyEdge)

  const TIGHT_BUDGET_NS: u64 := 1_000

  ghost predicate Touched(edges: seq<DependencyEdge>, id: NodeId) {
    exists e :: e in edges && (e.from == id || e.to == id)
  }

  ghost predicate Warranted(cfg: ManifestCfg, w: ManifestWarning) {
    match w
    case TripNodeUnreachable(id) => id == cfg.tripNode && Incoming(cfg.edges, id) == []
    case OrphanNode(id) => Declares(cfg.nodes, id) && !Touched(cfg.edges, id)
    case SuspiciouslyTightBudget(e) => e in cfg.edges && e.wcetNs < 1_000
  }

  /** The nodes with a non-zero in-degree, and those with a non-zero out-degree. */
  method Degrees(edges: seq<DependencyEdge>) returns (heads: set<NodeId>, tails: set<NodeId>)
    ensures forall n :: n in heads <==> Incoming(edges, n) != []
    ensures forall n :: n in heads || n in tails <==> Touched(edges, n)
  {
    heads, tails := {}, {};
    for i := 0 to |edges|
      invariant heads == set e | e in edges[..i] :: e.to
      invariant tails == set e | e in edges[..i] :: e.from
    {
      assert edges[..i + 1] == edges[..i] + [edges[i]];
      heads, tails := heads + {edges[i].to}, tails + {edges[i].from};
    }
    assert edges[..|edges|] == edges;
    forall n ensures n in heads <==> Incoming(edges, n) != [] {
      var inc := Incoming(edges, n);
      if inc != [] { assert inc[0] in inc; }
    }
  }

  function ReachWarnings(cfg: ManifestCfg): seq<ManifestWarning> {
    if Incoming(cfg.edges, cfg.tripNode) == [] then [TripNodeUnreachable(cfg.tripNode)] else []
  }

  function OrphanWarnings(ids: seq<NodeId>): seq<ManifestWarning> {
    seq(|ids|, i requires 0 <= i < |ids| => OrphanNode(ids[i]))
  }

  /** One warning for each edge entry with a tight budget, in declaration order. */
  function TightWarnings(edges: seq<DependencyEdge>): (r: seq<ManifestWarning>)
    ensures forall x :: x in r <==> x.SuspiciouslyTightBudget? && x.edge in edges && x.edge.wcetNs < TIGHT_BUDGET_NS
  {
    if edges == [] then []
    else
      var init, e := edges[..|edges| - 1], edges[|edges| - 1];
      assert edges == init + [e];
      TightWarnings(init) + if e.wcetNs < TIGHT_BUDGET_NS then [SuspiciouslyTightBudget(e)] else []
  }

  /** Non-fatal findings: the trip node's, then one per orphan, then one per tight edge entry. These are
      exactly the warranted ones. */
  method Lint(cfg: ManifestCfg) returns (w: seq<ManifestWarning>, ghost orphans: seq<NodeId>)
    ensures w == ReachWarnings(cfg) + OrphanWarnings(orphans) + TightWarnings(cfg.edges)
    ensures Distinct(orphans) && forall id :: id in orphans <==> Declares(cfg.nodes, id) && !Touched(cfg.edges, id)
    ensures forall x :: x in w <==> Warranted(cfg, x)
  {
    hide Incoming, Touched, TightWarnings;
    var heads, tails := Degrees(cfg.edges);
    w := [];
    if cfg.tripNode !in heads {
      w := w + [TripNodeUnreachable(cfg.tripNode)];
    }
    ghost var first := w;
    orphans := [];
    var ids := set i | 0 <= i < |cfg.nodes| :: cfg.nodes[i].id;
    var todo := ids;
    while todo != {}
      invariant todo <= ids && w == first + OrphanWarnings(orphans)
      invariant Distinct(orphans) && forall id :: id in orphans <==> id in ids - todo && !Touched(cfg.edges, id)
      decreases todo
    {
      var id :| id in todo;
      todo := todo - {id};
      if id !in heads && id !in tails {
        w := w + [OrphanNode(id)];
        orphans := orphans + [id];
      }
    }
    ghost var both := w;
    NoTightWarnings(cfg.edges);
    for i := 0 to |cfg.edges|
      invariant w == both + TightWarnings(cfg.edges[..i])
    {
      TightNext(cfg.edges, i);
      ConcatAssociative(both, TightWarnings(cfg.edges[..i]), [SuspiciouslyTightBudget(cfg.edges[i])]);
      if cfg.edges[i].wcetNs < TIGHT_BUDGET_NS {
        w := w + [SuspiciouslyTightBudget(cfg.edges[i])];
      }
    }
    assert cfg.edges[..|cfg.edges|] == cfg.edges;
    WarningsWarranted(cfg, orphans);
  }

  lemma NoTightWarnings(edges: seq<DependencyEdge>)
    ensures TightWarnings(edges[..0]) == []
  {
  }

  lemma TightNext(edges: seq<DependencyEdge>, i: nat)
    requires i < |edges|
    ensures TightWarnings(edges[..i + 1]) ==
      TightWarnings(edges[..i]) + if edges[i].wcetNs < TIGHT_BUDGET_NS then [SuspiciouslyTightBudget(edges[i])] else []
  {
    assert edges[..i + 1][..i] == edges[..i];
  }

  lemma WarningsWarranted(cfg: ManifestCfg, orphans: seq<NodeId>)
    requires forall id :: id in orphans <==> Declares(cfg.nodes, id) && !Touched(cfg.edges, id)
    ensures forall x :: x in ReachWarnings(cfg) + OrphanWarnings(orphans) + TightWarnings(cfg.edges) <==>
      Warranted(cfg, x)
  {
    hide TightWarnings, Touched, Declares;
    forall x
      ensures x in OrphanWarnings(orphans) <==> x.OrphanNode? && Declares(cfg.nodes, x.id) && !Touched(cfg.edges, x.id)
    {
      if x.OrphanNode? && x.id in orphans {
        var i :| 0 <= i < |orphans| && orphans[i] == x.id;
        assert OrphanWarnings(orphans)[i] == x;
      }
    }
  }
}
