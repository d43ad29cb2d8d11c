/** Runs of the engine, as the sequence of classified transitions they record (oldest first). */
module History {
  import opened Basics
  import opened CausalTypes

  type History = seq<StateTransition>

  /** The sequence counter numbers the transitions from 0 without gaps. */
  ghost predicate Numbered(h: History) {
    forall i :: 0 <= i < |h| ==> h[i].seqNo == i
  }

  /** The last level `node` reported, if it reported any. */
  function LastLevel(h: History, node: NodeId): Option<bool> {
    if h == [] then None
    else
      var t := h[|h| - 1];
      if t.node == node && t.interlock.Some? then t.interlock else LastLevel(h[..|h| - 1], node)
  }

  /** Recording `t` after `h` is a trip. */
  predicate IsTrip(h: History, t: StateTransition, tripNode: NodeId) {
    t.node == tripNode && t.interlock == Some(false) && LastLevel(h, tripNode) == Some(true)
  }

  predicate TripAt(h: History, i: nat, tripNode: NodeId)
    requires i < |h|
  {
    IsTrip(h[..i], h[i], tripNode)
  }

  function Reverse(h: History): (r: History)
    ensures |r| == |h| && forall i :: 0 <= i < |h| ==> r[i] == h[|h| - 1 - i]
  {
    seq(|h|, i requires 0 <= i < |h| => h[|h| - 1 - i])
  }

  /** The last `min(|h|, cap)` transitions, newest first. */
  function Newest(h: History, cap: nat): (r: History)
    ensures |r| == Min(|h|, cap) && forall i :: 0 <= i < |r| ==> r[i] == h[|h| - 1 - i]
  {
    Reverse(h)[..Min(|h|, cap)]
  }

  lemma LastLevelAfter(h: History, t: StateTransition, node: NodeId)
    ensures LastLevel(h + [t], node) == if t.node == node && t.interlock.Some? then t.interlock else LastLevel(h, node)
  {
    assert (h + [t])[..|h|] == h;
  }

  /** Pushing onto a view of the last `cap` transitions gives the view of the longer history. */
  lemma NewestAfter(h: History, t: StateTransition, cap: nat)
    requires cap > 0
    ensures ([t] + Newest(h, cap))[..Min(Min(|h|, cap) + 1, cap)] == Newest(h + [t], cap)
  {
    var a, b := ([t] + Newest(h, cap))[..Min(Min(|h|, cap) + 1, cap)], Newest(h + [t], cap);
    assert |a| == |b|;
    forall i | 0 <= i < |a| ensures a[i] == b[i] {
      if i > 0 { assert a[i] == Newest(h, cap)[i - 1]; }
    }
  }

  // ---------------------------------------------------------------- trips over whole runs

  /** The levels `node` reported, in order. */
  function LevelsOf(h: History, node: NodeId): seq<bool> {
    if h == [] then []
    else
      var t := h[|h| - 1];
      LevelsOf(h[..|h| - 1], node) + if t.node == node && t.interlock.Some? then [t.interlock.value] else []
  }

  function TripCount(h: History, tripNode: NodeId): nat {
    if h == [] then 0
    else TripCount(h[..|h| - 1], tripNode) + if TripAt(h, |h| - 1, tripNode) then 1 else 0
  }

  function FallingEdges(levels: seq<bool>): nat {
    if |levels| < 2 then 0
    else
      FallingEdges(levels[..|levels| - 1])
      + if levels[|levels| - 2] && !levels[|levels| - 1] then 1 else 0
  }

  lemma {:induction false} LastLevelIsLast(h: History, node: NodeId)
    ensures var levels := LevelsOf(h, node);
      LastLevel(h, node) == if levels == [] then None else Some(levels[|levels| - 1])
  {
    if h != [] {
      LastLevelIsLast(h[..|h| - 1], node);
    }
  }

  /** Over a whole run the engine trips once for every true-to-false step of the trip node's levels. */
  lemma {:induction false} TripsAreFallingEdges(h: History, tripNode: NodeId)
    ensures TripCount(h, tripNode) == FallingEdges(LevelsOf(h, tripNode))
  {
    if h != [] {
      var init, t := h[..|h| - 1], h[|h| - 1];
      TripsAreFallingEdges(init, tripNode);
      LastLevelIsLast(init, tripNode);
      if t.node == tripNode && t.interlock.Some? {
        assert LevelsOf(h, tripNode)[..|LevelsOf(h, tripNode)| - 1] == LevelsOf(init, tripNode);
      } else {
        assert LevelsOf(h, tripNode) == LevelsOf(init, tripNode);
      }
    }
  }

  lemma {:induction false} LastLevelWitness(h: History, node: NodeId) returns (k: nat)
    requires LastLevel(h, node).Some?
    ensures k < |h| && h[k].node == node && h[k].interlock == LastLevel(h, node)
    ensures forall j :: k < j < |h| ==> h[j].node != node || h[j].interlock == None
  {
    var t := h[|h| - 1];
    if t.node == node && t.interlock.Some? {
      k := |h| - 1;
    } else {
      k := LastLevelWitness(h[..|h| - 1], node);
    }
  }

  /** `h[i]` is a trip exactly when it is a low level of the trip node and the trip node's previous
      level report, however long ago, was high. */
  lemma TripMeansFall(h: History, i: nat, tripNode: NodeId)
    requires i < |h|
    ensures TripAt(h, i, tripNode) <==>
      && h[i].node == tripNode && h[i].interlock == Some(false)
      && exists k :: 0 <= k < i && h[k].node == tripNode && h[k].interlock == Some(true)
           && forall j :: k < j < i ==> h[j].node != tripNode || h[j].interlock == None
  {
    if LastLevel(h[..i], tripNode).Some? {
      var k := LastLevelWitness(h[..i], tripNode);
      assert h[k] == h[..i][k];
      assert forall j :: k < j < i ==> h[j] == h[..i][j];
    } else {
      NoLevel(h[..i], tripNode);
      assert forall j :: 0 <= j < i ==> h[j] == h[..i][j];
    }
  }

  lemma {:induction false} NoLevel(h: History, node: NodeId)
    requires LastLevel(h, node) == None
    ensures forall j :: 0 <= j < |h| ==> h[j].node != node || h[j].interlock == None
  {
    if h != [] {
      NoLevel(h[..|h| - 1], node);
    }
  }

  /** Between two trips the trip node was high again. */
  lemma HighBetweenTrips(h: History, i: nat, j: nat, tripNode: NodeId)
    requires i < j < |h| && TripAt(h, i, tripNode) && TripAt(h, j, tripNode)
    ensures exists k :: i < k < j && h[k].node == tripNode && h[k].interlock == Some(true)
  {
    var k := LastLevelWitness(h[..j], tripNode);
    assert h[..j][i] == h[i] && h[..j][k] == h[k];
  }
}
