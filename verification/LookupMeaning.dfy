/** When "most recently recorded before" is "latest before": what reordered timestamps do to a lookup. */
module LookupMeaning {
  import opened Basics
  import opened CausalTypes
  import opened BackwardWalk

  /** `t` carries the latest stamp of the node's transitions before `beforeTs`. */
  ghost predicate LatestBefore(view: seq<StateTransition>, node: NodeId, beforeTs: nat, t: StateTransition) {
    && t in view && t.node == node && t.tsNs < beforeTs
    && forall u :: u in view && u.node == node && u.tsNs < beforeTs ==> u.tsNs <= t.tsNs
  }

  /** Every lookup of the node finds a latest transition, if there is one at all. */
  ghost predicate FindsLatest(view: seq<StateTransition>, node: NodeId) {
    forall beforeTs: nat, t ::
      LastForNodeBefore(view, node, beforeTs) == Some(t) ==> LatestBefore(view, node, beforeTs, t)
  }

  /** The view is newest first, so the node's stamps were recorded in non-decreasing order. */
  ghost predicate RecordedInOrder(view: seq<StateTransition>, node: NodeId) {
    forall i, j :: 0 <= i < j < |view| && view[i].node == view[j].node == node ==> view[i].tsNs >= view[j].tsNs
  }

  /** A stamp that was overtaken, recorded before an earlier one, has been recorded again since. */
  ghost predicate OvertakenRepeated(view: seq<StateTransition>, node: NodeId) {
    forall i, j :: 0 <= i < j < |view| && view[i].node == view[j].node == node && view[i].tsNs < view[j].tsNs ==>
      exists k :: 0 <= k < i && view[k].node == node && view[k].tsNs == view[j].tsNs
  }

  /** The position at which a lookup finds its transition: nothing newer matches. */
  lemma {:induction false} FoundFirst(view: seq<StateTransition>, node: NodeId, beforeTs: nat) returns (k: nat)
    requires LastForNodeBefore(view, node, beforeTs).Some?
    ensures k < |view| && LastForNodeBefore(view, node, beforeTs) == Some(view[k])
    ensures view[k].node == node && view[k].tsNs < beforeTs
    ensures forall i :: 0 <= i < k ==> view[i].node != node || view[i].tsNs >= beforeTs
  {
    if view[0].node == node && view[0].tsNs < beforeTs {
      k := 0;
    } else {
      var l := FoundFirst(view[1..], node, beforeTs);
      k := l + 1;
    }
  }

  /** Lookups of a node always find its latest transition before the bound if and only if every overtaken stamp
      has been recorded again since. */
  lemma FindsLatestIff(view: seq<StateTransition>, node: NodeId)
    ensures FindsLatest(view, node) <==> OvertakenRepeated(view, node)
  {
    hide LastForNodeBefore;
    if OvertakenRepeated(view, node) {
      forall beforeTs: nat, t | LastForNodeBefore(view, node, beforeTs) == Some(t)
        ensures LatestBefore(view, node, beforeTs, t)
      {
        FoundIsLatest(view, node, beforeTs);
      }
    }
    if FindsLatest(view, node) {
      forall i, j | 0 <= i < j < |view| && view[i].node == view[j].node == node && view[i].tsNs < view[j].tsNs
        ensures exists k :: 0 <= k < i && view[k].node == node && view[k].tsNs == view[j].tsNs
      {
        var b := view[j].tsNs + 1;
        assert view[j] in view;
        var k := FoundFirst(view, node, b);
        assert LatestBefore(view, node, b, view[k]);
      }
    }
  }

  lemma FoundIsLatest(view: seq<StateTransition>, node: NodeId, beforeTs: nat)
    requires OvertakenRepeated(view, node) && LastForNodeBefore(view, node, beforeTs).Some?
    ensures LatestBefore(view, node, beforeTs, LastForNodeBefore(view, node, beforeTs).value)
  {
    hide LastForNodeBefore;
    var k := FoundFirst(view, node, beforeTs);
    forall u | u in view && u.node == node && u.tsNs < beforeTs ensures u.tsNs <= view[k].tsNs {
      var j :| 0 <= j < |view| && view[j] == u;
    }
  }

  /** So they do when the node's stamps were recorded in order. */
  lemma InOrderFindsLatest(view: seq<StateTransition>, node: NodeId)
    requires RecordedInOrder(view, node)
    ensures FindsLatest(view, node)
  {
    FindsLatestIff(view, node);
  }

  /** Two reports recorded against the order of their stamps: before 30, the lookup finds 10 and not 20. */
  lemma ReorderedLookup()
    ensures var view := [StateTransition(1, 2, 10, None), StateTransition(0, 2, 20, None)];
      LastForNodeBefore(view, 2, 30) == Some(view[0]) && LatestBefore(view, 2, 30, view[1]) && !FindsLatest(view, 2)
  {
    var view := [StateTransition(1, 2, 10, None), StateTransition(0, 2, 20, None)];
    assert view[0].node == 2 && view[1].tsNs == 20 && view[1] in view;
    FoundAt(view, 0, 2, 30);
  }
}
