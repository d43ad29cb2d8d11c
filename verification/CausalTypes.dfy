/** Nodes, edges, matchers and transitions of the attribution engine. */
module CausalTypes {
  import opened Basics
  import opened Ingest

  type NodeId = u32

  datatype NodeMatcher =
    | ProfinetFrame(frameId: u16, bitIndex: byte)
    | Ros2Port(topicPort: u16)
    | FanucPose
  {
    /** `raw_status_byte >> bit_index` needs a shift below the byte's width. */
    predicate ShiftInRange() {
      ProfinetFrame? ==> bitIndex < 8
    }

    /** `None`: not this node's frame. `Some(level)`: this node's frame, with its interlock level if
        the node carries one. */
    function Matches(f: DecodedFrame): Option<Option<bool>>
      requires ShiftInRange()
    {
      match (this, f.proto)
      case (ProfinetFrame(id, bit), ProfinetIrt(fid, _, raw)) =>
        if id == fid then Some(Some(Bit(raw, bit))) else None
      case (Ros2Port(port), Ros2Udp(p, _)) => if port == p then Some(None) else None
      case (FanucPose, FanucUdp(_, _, _)) => Some(None)
      case _ => None
    }
  }

  datatype DependencyEdge = DependencyEdge(from: NodeId, to: NodeId, wcetNs: u64)

  datatype StateTransition = StateTransition(seqNo: nat, node: NodeId, tsNs: u64, interlock: Option<bool>)

  /** The edges ending at `n`, in declaration order. */
  function Incoming(edges: seq<DependencyEdge>, n: NodeId): (r: seq<DependencyEdge>)
    ensures forall e :: e in r <==> e in edges && e.to == n
  {
    if edges == [] then []
    else
      var rest := Incoming(edges[..|edges| - 1], n);
      var e := edges[|edges| - 1];
      assert edges == edges[..|edges| - 1] + [e];
      if e.to == n then rest + [e] else rest
  }

  lemma IncomingOfOne(e: DependencyEdge, n: NodeId)
    ensures Incoming([e], n) == if e.to == n then [e] else []
  {
    assert [e][..0] == [];
  }

  /** Incoming edges keep their declaration order. */
  lemma {:induction false} IncomingInOrder(a: seq<DependencyEdge>, b: seq<DependencyEdge>, n: NodeId)
    ensures Incoming(a + b, n) == Incoming(a, n) + Incoming(b, n)
  {
    if b == [] {
      assert a + b == a;
    } else {
      var k := |b| - 1;
      IncomingInOrder(a, b[..k], n);
      assert (a + b)[..|a + b| - 1] == a + b[..k];
    }
  }

  datatype DependencyManifest = DependencyManifest(
    nodes: map<NodeId, NodeMatcher>,
    edges: seq<DependencyEdge>,
    tripNode: NodeId,
    revAdj: map<NodeId, seq<DependencyEdge>>)
  {
    /** The reverse adjacency holds each node's incoming edges and nothing else. */
    ghost predicate RevAdjOk() {
      forall n: NodeId ::
        (n in revAdj <==> Incoming(edges, n) != []) && (n in revAdj ==> revAdj[n] == Incoming(edges, n))
    }

    ghost predicate Valid() {
      RevAdjOk() && forall id :: id in nodes ==> nodes[id].ShiftInRange()
    }

    /** The outcomes `classify` may return: the map's iteration order decides among matching nodes. */
    ghost predicate MayClassify(f: DecodedFrame, c: Option<(NodeId, Option<bool>)>)
      requires Valid()
    {
      match c
      case None => forall id :: id in nodes ==> nodes[id].Matches(f) == None
      case Some((id, level)) => id in nodes && nodes[id].Matches(f) == Some(level)
    }

    /** The loop over the node table, visiting the entries in an arbitrary order. */
    method Classify(f: DecodedFrame) returns (c: Option<(NodeId, Option<bool>)>)
      requires Valid()
      ensures MayClassify(f, c)
    {
      var left := nodes.Keys;
      while left != {}
        invariant left <= nodes.Keys
        invariant forall id :: id in nodes.Keys - left ==> nodes[id].Matches(f) == None
        decreases left
      {
        var id :| id in left;
        var m := nodes[id].Matches(f);
        if m.Some? {
          return Some((id, m.value));
        }
        left := left - {id};
      }
      c := None;
    }
  }

  /** Two matchers that claim a common frame. */
  predicate Overlap(a: NodeMatcher, b: NodeMatcher) {
    match (a, b)
    case (ProfinetFrame(i, _), ProfinetFrame(j, _)) => i == j
    case (Ros2Port(p), Ros2Port(q)) => p == q
    case (FanucPose, FanucPose) => true
    case _ => false
  }

  /** A frame that `m` claims. */
  function Claimed(m: NodeMatcher): DecodedFrame {
    match m
    case ProfinetFrame(id, _) => DecodedFrame(0, ProfinetIrt(id, false, 0), [])
    case Ros2Port(port) => DecodedFrame(0, Ros2Udp(port, 0), [])
    case FanucPose => DecodedFrame(0, FanucUdp([], [], []), [])
  }

  lemma OverlapSharesFrame(a: NodeMatcher, b: NodeMatcher)
    requires a.ShiftInRange() && b.ShiftInRange()
    ensures Overlap(a, b) ==> a.Matches(Claimed(a)).Some? && b.Matches(Claimed(a)).Some?
  {
  }

  lemma SharedFrameOverlaps(a: NodeMatcher, b: NodeMatcher, f: DecodedFrame)
    requires a.ShiftInRange() && b.ShiftInRange()
    ensures a.Matches(f).Some? && b.Matches(f).Some? ==> Overlap(a, b)
  {
  }

  /** The map's iteration order is invisible on every frame if and only if no two nodes overlap. */
  lemma ClassificationUniqueIff(m: DependencyManifest)
    requires m.Valid()
    ensures (forall f, c, c' :: m.MayClassify(f, c) && m.MayClassify(f, c') ==> c == c') <==>
            (forall i, j :: i in m.nodes && j in m.nodes && i != j ==> !Overlap(m.nodes[i], m.nodes[j]))
  {
    hide Overlap, NodeMatcher.Matches, Claimed;
    if forall i, j :: i in m.nodes && j in m.nodes && i != j ==> !Overlap(m.nodes[i], m.nodes[j]) {
      forall f, c, c' | m.MayClassify(f, c) && m.MayClassify(f, c') ensures c == c' {
        if c.Some? && c'.Some? {
          SharedFrameOverlaps(m.nodes[c.value.0], m.nodes[c'.value.0], f);
        }
      }
    } else {
      var i, j :| i in m.nodes && j in m.nodes && i != j && Overlap(m.nodes[i], m.nodes[j]);
      OverlapSharesFrame(m.nodes[i], m.nodes[j]);
      var f := Claimed(m.nodes[i]);
      assert m.MayClassify(f, Some((i, m.nodes[i].Matches(f).value)));
      assert m.MayClassify(f, Some((j, m.nodes[j].Matches(f).value)));
    }
  }

  /** `DependencyManifest::new`: file every edge under its target, in order. */
  method NewManifest(nodes: map<NodeId, NodeMatcher>, edges: seq<DependencyEdge>, tripNode: NodeId)
    returns (m: DependencyManifest)
    ensures m.nodes == nodes && m.edges == edges && m.tripNode == tripNode && m.RevAdjOk()
  {
    var revAdj: map<NodeId, seq<DependencyEdge>> := map[];
    for i := 0 to |edges|
      invariant forall n: NodeId ::
        (n in revAdj <==> Incoming(edges[..i], n) != []) && (n in revAdj ==> revAdj[n] == Incoming(edges[..i], n))
    {
      var e := edges[i];
      assert edges[..i + 1][..i] == edges[..i];
      revAdj := revAdj[e.to := (if e.to in revAdj then revAdj[e.to] else []) + [e]];
    }
    assert edges[..|edges|] == edges;
    m := DependencyManifest(nodes, edges, tripNode, revAdj);
  }
}
