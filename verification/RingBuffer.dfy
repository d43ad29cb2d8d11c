/** The fixed-capacity buffer of the most recent transitions. */
module RingBuffers {
  import opened Basics
  import opened CausalTypes
  import opened BackwardWalk

  lemma WrapOnce(x: int, cap: int)
    requires cap > 0 && 0 <= x < 2 * cap
    ensures x % cap == if x < cap then x else x - cap
  {
    if x >= cap {
      assert x == cap + (x - cap);
    }
  }

  /** Position of the `i`-th newest entry when `head` is the next position to be written. */
  function SlotAt(head: nat, cap: nat, i: nat): (slot: nat)
    requires head < cap && i < cap
    ensures slot == if i < head then head - 1 - i else head - 1 - i + cap
  {
    WrapOnce(head + cap - 1 - i, cap);
    (head + cap - 1 - i) % cap
  }

  class RingBuffer {
    const buf: array<Option<StateTransition>>
    var head: nat
    var len: nat

    ghost predicate Valid()
      reads this, buf
      ensures Valid() ==> buf.Length > 0
    {
      && buf.Length > 0 && head < buf.Length && len <= buf.Length
      && forall i :: 0 <= i < len ==> buf[SlotAt(head, buf.Length, i)].Some?
    }

    /** The retained transitions, newest first. */
    ghost function View(): (v: seq<StateTransition>)
      reads this, buf
      requires Valid()
      ensures |v| == len && forall i :: 0 <= i < len ==> v[i] == buf[SlotAt(head, buf.Length, i)].value
    {
      seq(len, i requires 0 <= i < len reads this, buf requires Valid() => buf[SlotAt(head, buf.Length, i)].value)
    }

    constructor (cap: nat)
      requires cap > 0
      ensures Valid() && View() == [] && buf.Length == cap && fresh(buf)
    {
      buf := new Option<StateTransition>[cap](_ => None);
      head, len := 0, 0;
    }

    method Push(t: StateTransition)
      requires Valid()
      modifies this, buf
      ensures Valid()
      ensures View() == ([t] + old(View()))[..Min(|old(View())| + 1, buf.Length)]
    {
      ghost var was := View();
      buf[head] := Some(t);
      WrapOnce(head + 1, buf.Length);
      head := (head + 1) % buf.Length;
      if len < buf.Length {
        len := len + 1;
      }
      forall i | 0 <= i < len
        ensures buf[SlotAt(head, buf.Length, i)] == Some(([t] + was)[i])
      {
        if i > 0 {
          assert SlotAt(head, buf.Length, i) == SlotAt(old(head), buf.Length, i - 1);
          assert ([t] + was)[i] == was[i - 1];
        }
      }
    }

    /** `iter_rev().find(..)` from the `i`-th newest transition on. */
    function FindFrom(i: nat, node: NodeId, beforeTs: u64): (r: Option<StateTransition>)
      reads this, buf
      requires Valid() && i <= len
      ensures r == BackwardWalk.LastForNodeBefore(View()[i..], node, beforeTs)
      decreases len - i
    {
      if i == len then None
      else
        var t := buf[SlotAt(head, buf.Length, i)].value;
        assert View()[i..][1..] == View()[i + 1..];
        if t.node == node && t.tsNs < beforeTs then Some(t) else FindFrom(i + 1, node, beforeTs)
    }

    /** Most recent transition for `node` stamped strictly before `beforeTs`. */
    function LastForNodeBefore(node: NodeId, beforeTs: u64): (r: Option<StateTransition>)
      reads this, buf
      requires Valid()
      ensures r == BackwardWalk.LastForNodeBefore(View(), node, beforeTs)
    {
      assert View()[0..] == View();
      FindFrom(0, node, beforeTs)
    }
  }
}
