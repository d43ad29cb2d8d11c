/** Per-stream accumulation: inter-arrival gaps and the bits that ever toggled. */
module StreamProfiles {
  import opened Basics
  import opened Histogram

  // ---------------------------------------------------------------- bitwise operators

  function Xor(a: nat, b: nat): nat
    decreases a + b
  {
    if a == 0 && b == 0 then 0 else (if a % 2 != b % 2 then 1 else 0) + 2 * Xor(a / 2, b / 2)
  }

  function Or(a: nat, b: nat): nat
    decreases a + b
  {
    if a == 0 && b == 0 then 0 else (if a % 2 == 1 || b % 2 == 1 then 1 else 0) + 2 * Or(a / 2, b / 2)
  }

  lemma {:induction false} ZeroHasNoBits(k: nat)
    ensures !Bit(0, k)
  {
    if k > 0 { ZeroHasNoBits(k - 1); }
  }

  lemma {:induction false} XorBit(a: nat, b: nat, k: nat)
    ensures Bit(Xor(a, b), k) <==> Bit(a, k) != Bit(b, k)
  {
    if a == 0 && b == 0 {
      ZeroHasNoBits(k);
    } else if k > 0 {
      XorBit(a / 2, b / 2, k - 1);
      assert Xor(a, b) / 2 == Xor(a / 2, b / 2);
    }
  }

  lemma {:induction false} OrBit(a: nat, b: nat, k: nat)
    ensures Bit(Or(a, b), k) <==> Bit(a, k) || Bit(b, k)
  {
    if a == 0 && b == 0 {
      ZeroHasNoBits(k);
    } else if k > 0 {
      OrBit(a / 2, b / 2, k - 1);
      assert Or(a, b) / 2 == Or(a / 2, b / 2);
    }
  }

  lemma {:induction false} BitwiseBounds(a: nat, b: nat, n: nat)
    requires a < Pow2(n) && b < Pow2(n)
    ensures Xor(a, b) < Pow2(n) && Or(a, b) < Pow2(n)
  {
    if n > 0 { BitwiseBounds(a / 2, b / 2, n - 1); }
  }

  lemma ByteSize()
    ensures Pow2(8) == 0x100
  {
    assert Pow2(4) == 16;
  }

  function XorByte(a: byte, b: byte): byte {
    ByteSize();
    BitwiseBounds(a, b, 8);
    Xor(a, b)
  }

  function OrByte(a: byte, b: byte): byte {
    ByteSize();
    BitwiseBounds(a, b, 8);
    Or(a, b)
  }

  // ---------------------------------------------------------------- what a stream saw

  /** One frame of a stream: its timestamp, and its cyclic payload if the stream is PROFINET. */
  datatype Arrival = Arrival(tsNs: u64, payload: Option<seq<byte>>)

  /** The gaps between consecutive arrivals, 0 where the timestamps step back. */
  function Gaps(log: seq<Arrival>): (g: seq<u64>)
    ensures |g| == if log == [] then 0 else |log| - 1
  {
    if |log| < 2 then []
    else
      var k := |log| - 1;
      Gaps(log[..k]) + [SaturatingSub(log[k].tsNs, log[k - 1].tsNs)]
  }

  /** Gap by gap. */
  lemma {:induction false} GapsAt(log: seq<Arrival>, i: nat)
    requires i + 1 < |log|
    ensures Gaps(log)[i] == if log[i].tsNs <= log[i + 1].tsNs then log[i + 1].tsNs - log[i].tsNs else 0
  {
    if i + 2 < |log| { GapsAt(log[..|log| - 1], i); }
  }

  ghost predicate Observed(log: seq<Arrival>, p: seq<byte>) {
    exists i :: 0 <= i < |log| && log[i].payload == Some(p)
  }

  /** The first non-empty payload, or the empty one. */
  function Reference(log: seq<Arrival>): seq<byte> {
    if log == [] then []
    else
      var before := Reference(log[..|log| - 1]);
      match log[|log| - 1].payload
      case Some(p) => if before == [] then p else before
      case None => before
  }

  /** It is the payload of the first arrival that carries a non-empty one. */
  lemma {:induction false} ReferenceIsFirst(log: seq<Arrival>, first: nat)
    requires first < |log| && log[first].payload.Some? && log[first].payload.value != []
    requires forall i :: 0 <= i < first ==> log[i].payload == None || log[i].payload == Some([])
    ensures Reference(log) == log[first].payload.value
  {
    var k := |log| - 1;
    if first < k {
      ReferenceIsFirst(log[..k], first);
    } else {
      NoReference(log[..k]);
    }
  }

  lemma {:induction false} NoReference(log: seq<Arrival>)
    requires forall i :: 0 <= i < |log| ==> log[i].payload == None || log[i].payload == Some([])
    ensures Reference(log) == []
  {
    if log != [] { NoReference(log[..|log| - 1]); }
  }

  /** Some two observed payloads that cover byte `i` disagree on its bit `k`. */
  ghost predicate Toggles(log: seq<Arrival>, i: nat, k: nat) {
    exists p: seq<byte>, q: seq<byte> ::
      Observed(log, p) && Observed(log, q) && i < |p| && i < |q| && Bit(p[i], k) != Bit(q[i], k)
  }

  /** Some observed payload disagrees with the reference on bit `k` of byte `i`. */
  ghost predicate DiffersFrom(log: seq<Arrival>, first: seq<byte>, i: nat, k: nat)
    requires i < |first|
  {
    exists p: seq<byte> :: Observed(log, p) && i < |p| && Bit(p[i], k) != Bit(first[i], k)
  }

  lemma {:induction false} ReferenceObserved(log: seq<Arrival>)
    ensures Reference(log) != [] ==> Observed(log, Reference(log))
    ensures Reference(log) == [] ==> forall p :: Observed(log, p) ==> p == []
  {
    if log != [] {
      var k := |log| - 1;
      ReferenceObserved(log[..k]);
      if Reference(log[..k]) != [] {
        var i :| 0 <= i < k && log[..k][i].payload == Some(Reference(log[..k]));
        assert log[i].payload == Some(Reference(log[..k]));
      }
      if log[k].payload == Some(Reference(log)) {
        assert Observed(log, Reference(log));
      }
      assert Reference(log) == [] ==> Reference(log[..k]) == [];
      forall p | Reference(log) == [] && Observed(log, p) ensures p == [] {
        var i :| 0 <= i < |log| && log[i].payload == Some(p);
        if i < k {
          assert log[..k][i].payload == Some(p);
          assert Observed(log[..k], p);
        }
      }
    }
  }

  /** Comparing with the reference finds every disagreement there is. */
  lemma DiffersIffToggles(log: seq<Arrival>, i: nat, k: nat)
    requires i < |Reference(log)|
    ensures DiffersFrom(log, Reference(log), i, k) <==> Toggles(log, i, k)
  {
    hide Bit;
    ReferenceObserved(log);
    var first := Reference(log);
    if Toggles(log, i, k) {
      var p: seq<byte>, q: seq<byte> :|
        Observed(log, p) && Observed(log, q) && i < |p| && i < |q| && Bit(p[i], k) != Bit(q[i], k);
      assert Bit(p[i], k) != Bit(first[i], k) || Bit(q[i], k) != Bit(first[i], k);
    }
  }

  /** The mask records exactly the disagreements with the reference. */
  ghost predicate MaskOf(log: seq<Arrival>, first: seq<byte>, mask: seq<byte>) {
    && |mask| == |first|
    && forall i, k: nat {:trigger Bit(mask[i], k)} :: 0 <= i < |first| ==>
      (Bit(mask[i], k) <==> DiffersFrom(log, first, i, k))
  }

  lemma ObservedNext(log: seq<Arrival>, a: Arrival, p: seq<byte>)
    ensures Observed(log + [a], p) <==> Observed(log, p) || a.payload == Some(p)
  {
    var all := log + [a];
    assert all[|log|] == a;
    if Observed(log, p) {
      var i :| 0 <= i < |log| && log[i].payload == Some(p);
      assert all[i].payload == Some(p);
    }
    if Observed(all, p) {
      var i :| 0 <= i < |all| && all[i].payload == Some(p);
      if i < |log| { assert log[i].payload == Some(p); }
    }
  }

  lemma DiffersNext(log: seq<Arrival>, a: Arrival, first: seq<byte>, i: nat, k: nat)
    requires i < |first|
    ensures DiffersFrom(log + [a], first, i, k) <==>
      DiffersFrom(log, first, i, k)
      || (a.payload.Some? && i < |a.payload.value| && Bit(a.payload.value[i], k) != Bit(first[i], k))
  {
    hide Observed, Bit;
    forall p { ObservedNext(log, a, p); }
  }

  lemma ReferenceNext(log: seq<Arrival>, a: Arrival)
    ensures Reference(log + [a]) ==
      if a.payload.Some? && Reference(log) == [] then a.payload.value else Reference(log)
  {
    assert (log + [a])[..|log|] == log;
  }

  /** Before a reference exists nothing differs, so a fresh zero mask is right. */
  lemma FreshMask(log: seq<Arrival>, a: Arrival, mask: seq<byte>)
    requires Reference(log) == [] && a.payload.Some?
    requires |mask| == |a.payload.value| && forall i :: 0 <= i < |mask| ==> mask[i] == 0
    ensures MaskOf(log + [a], a.payload.value, mask)
  {
    ReferenceObserved(log);
    var first := a.payload.value;
    forall i, k: nat | 0 <= i < |first| ensures Bit(mask[i], k) <==> DiffersFrom(log + [a], first, i, k) {
      ZeroHasNoBits(k);
      DiffersNext(log, a, first, i, k);
    }
  }

  /** OR-ing in the XOR of each common byte keeps the mask exact. */
  lemma MaskNext(log: seq<Arrival>, a: Arrival, first: seq<byte>, mask: seq<byte>, mask': seq<byte>)
    requires MaskOf(log, first, mask) && a.payload.Some? && |mask'| == |mask|
    requires var p := a.payload.value; forall i :: 0 <= i < |mask| ==>
      mask'[i] == if i < |p| then OrByte(mask[i], XorByte(first[i], p[i])) else mask[i]
    ensures MaskOf(log + [a], first, mask')
  {
    hide DiffersFrom, Bit, Or, Xor;
    var p := a.payload.value;
    forall i, k: nat | 0 <= i < |first| ensures Bit(mask'[i], k) <==> DiffersFrom(log + [a], first, i, k) {
      DiffersNext(log, a, first, i, k);
      assert Bit(mask[i], k) <==> DiffersFrom(log, first, i, k);
      if i < |p| {
        OrBit(mask[i], XorByte(first[i], p[i]), k);
        XorBit(first[i], p[i], k);
      }
    }
  }

  lemma MaskUntouched(log: seq<Arrival>, a: Arrival, first: seq<byte>, mask: seq<byte>)
    requires MaskOf(log, first, mask) && a.payload.None?
    ensures MaskOf(log + [a], first, mask)
  {
    hide DiffersFrom, Bit;
    forall i, k: nat | 0 <= i < |first| ensures Bit(mask[i], k) <==> DiffersFrom(log + [a], first, i, k) {
      DiffersNext(log, a, first, i, k);
    }
  }

  // ---------------------------------------------------------------- the profile

  datatype StreamKey = Profinet(frameId: u16) | UdpPort(dstPort: u16) | S7comm(port: u16)

  datatype BitPos = BitPos(byteIndex: nat, bit: nat)

  predicate Before(a: BitPos, b: BitPos) {
    a.byteIndex < b.byteIndex || (a.byteIndex == b.byteIndex && a.bit < b.bit)
  }

  /** Lexicographic order, without duplicates. */
  ghost predicate StrictlyOrdered(s: seq<BitPos>) {
    forall i, j :: 0 <= i < j < |s| ==> Before(s[i], s[j])
  }

  class StreamProfile {
    const key: StreamKey
    const interarrival: LogHistogram
    var lastTsNs: Option<u64>
    var firstPayload: seq<byte>
    var xorMask: seq<byte>
    /** Every arrival of the stream, in order. */
    ghost var log: seq<Arrival>

    ghost predicate Valid()
      reads this, interarrival
    {
      && interarrival.Valid() && interarrival.samples == Gaps(log)
      && lastTsNs == (if log == [] then None else Some(log[|log| - 1].tsNs))
      && firstPayload == Reference(log) && MaskOf(log, firstPayload, xorMask)
    }

    constructor (key: StreamKey)
      ensures Valid() && log == [] && this.key == key && fresh(interarrival)
    {
      this.key := key;
      interarrival := new LogHistogram();
      lastTsNs := None;
      firstPayload, xorMask := [], [];
      log := [];
    }

    method Observe(tsNs: u64, payload: Option<seq<byte>>)
      requires Valid()
      modifies this, interarrival
      ensures Valid() && log == old(log) + [Arrival(tsNs, payload)]
    {
      hide LogHistogram.Valid, MaskOf, Reference, XorByte, OrByte;
      ghost var a := Arrival(tsNs, payload);
      GapsNext(log, a);
      ReferenceNext(log, a);
      if lastTsNs.Some? {
        interarrival.Record(SaturatingSub(tsNs, lastTsNs.value));
      }
      lastTsNs := Some(tsNs);
      if payload.Some? {
        var p := payload.value;
        if firstPayload == [] {
          firstPayload := p;
          xorMask := seq(|p|, _ => 0);
          FreshMask(log, a, xorMask);
        } else {
          AccumulateDifferences(p, a);
        }
      } else {
        MaskUntouched(log, a, firstPayload, xorMask);
      }
      log := log + [a];
    }

    /** The loop over the bytes the payload shares with the reference. */
    method AccumulateDifferences(p: seq<byte>, ghost a: Arrival)
      requires MaskOf(log, firstPayload, xorMask) && a.payload == Some(p)
      modifies this`xorMask
      ensures MaskOf(log + [a], firstPayload, xorMask)
    {
      ghost var was := xorMask;
      var n := Min(|firstPayload|, |p|);
      assert |was| == |firstPayload|;
      for i := 0 to n
        invariant |xorMask| == |was|
        invariant forall j :: 0 <= j < |was| ==>
          xorMask[j] == if j < i then OrByte(was[j], XorByte(firstPayload[j], p[j])) else was[j]
      {
        hide OrByte, XorByte;
        xorMask := xorMask[i := OrByte(xorMask[i], XorByte(firstPayload[i], p[i]))];
      }
      hide MaskOf;
      MaskNext(log, a, firstPayload, was, xorMask);
    }

    /** The bits that toggled at least once, within the reference payload. */
    method TogglingBits() returns (out: seq<BitPos>)
      requires Valid()
      ensures StrictlyOrdered(out)
      ensures forall b :: b in out <==> b.byteIndex < |Reference(log)| && b.bit < 8 && Toggles(log, b.byteIndex, b.bit)
    {
      hide Bit, Toggles, Gaps, LogHistogram.Valid;
      out := [];
      for i := 0 to |xorMask|
        invariant StrictlyOrdered(out)
        invariant forall b :: b in out <==> b.byteIndex < i && b.bit < 8 && Bit(xorMask[b.byteIndex], b.bit)
      {
        for bit := 0 to 8
          invariant StrictlyOrdered(out)
          invariant forall b :: b in out <==>
            b.byteIndex <= i && b.bit < 8 && (b.byteIndex == i ==> b.bit < bit) && Bit(xorMask[b.byteIndex], b.bit)
        {
          if Bit(xorMask[i], bit) {
            forall j | 0 <= j < |out| ensures Before(out[j], BitPos(i, bit)) {
              assert out[j] in out;
            }
            out := out + [BitPos(i, bit)];
          }
        }
      }
      forall b: BitPos | b.byteIndex < |xorMask|
        ensures Bit(xorMask[b.byteIndex], b.bit) <==> Toggles(log, b.byteIndex, b.bit)
      {
        DiffersIffToggles(log, b.byteIndex, b.bit);
      }
    }
  }

  lemma GapsNext(log: seq<Arrival>, a: Arrival)
    ensures Gaps(log + [a]) == if log == [] then [] else Gaps(log) + [SaturatingSub(a.tsNs, log[|log| - 1].tsNs)]
  {
    assert (log + [a])[..|log|] == log;
  }

  // ---------------------------------------------------------------- independence of arrival order

  /** The two streams saw the same payloads, all non-empty ones of one length. */
  ghost predicate SamePayloads(a: seq<Arrival>, b: seq<Arrival>, length: nat) {
    && (forall p :: Observed(a, p) <==> Observed(b, p))
    && (forall p :: Observed(a, p) && p != [] ==> |p| == length)
  }

  lemma {:induction false} OrderedListsAgree(a: seq<BitPos>, b: seq<BitPos>)
    requires StrictlyOrdered(a) && StrictlyOrdered(b) && forall x :: x in a <==> x in b
    ensures a == b
  {
    assert |a| == 0 || a[0] in a;
    assert |b| == 0 || b[0] in b;
    if a != [] {
      var i :| 0 <= i < |b| && b[i] == a[0];
      var j :| 0 <= j < |a| && a[j] == b[0];
      assert a[0] == b[0];
      assert a == [a[0]] + a[1..] && b == [b[0]] + b[1..];
      forall x ensures x in a[1..] <==> x in b[1..] {
        if x in a[1..] { var k :| 1 <= k < |a| && a[k] == x; assert x in b; }
        if x in b[1..] { var k :| 1 <= k < |b| && b[k] == x; assert x in a; }
      }
      OrderedListsAgree(a[1..], b[1..]);
    }
  }

  /** Whatever order equal-length payloads arrive in, the same bits are listed. */
  lemma TogglingIgnoresOrder(a: seq<Arrival>, b: seq<Arrival>, length: nat, outA: seq<BitPos>, outB: seq<BitPos>)
    requires SamePayloads(a, b, length)
    requires StrictlyOrdered(outA) && StrictlyOrdered(outB)
    requires forall x :: x in outA <==> x.byteIndex < |Reference(a)| && x.bit < 8 && Toggles(a, x.byteIndex, x.bit)
    requires forall x :: x in outB <==> x.byteIndex < |Reference(b)| && x.bit < 8 && Toggles(b, x.byteIndex, x.bit)
    ensures outA == outB
  {
    hide Bit, StrictlyOrdered, Observed;
    ReferenceObserved(a);
    ReferenceObserved(b);
    assert |Reference(a)| == |Reference(b)|;
    forall x ensures x in outA <==> x in outB {
      if x.byteIndex < |Reference(a)| && Toggles(a, x.byteIndex, x.bit) {
        assert Toggles(b, x.byteIndex, x.bit);
      }
      if x.byteIndex < |Reference(b)| && Toggles(b, x.byteIndex, x.bit) {
        assert Toggles(a, x.byteIndex, x.bit);
      }
    }
    OrderedListsAgree(outA, outB);
  }

  // ---------------------------------------------------------------- what the fixed mask misses

  lemma {:induction false} SameBitsSameNumber(a: nat, b: nat, n: nat)
    requires a < Pow2(n) && b < Pow2(n) && forall k :: 0 <= k < n ==> Bit(a, k) == Bit(b, k)
    ensures a == b
  {
    if n > 0 {
      assert Bit(a, 0) == Bit(b, 0);
      forall k | 0 <= k < n - 1 ensures Bit(a / 2, k) == Bit(b / 2, k) {
        assert Bit(a, k + 1) == Bit(b, k + 1);
      }
      SameBitsSameNumber(a / 2, b / 2, n - 1);
    }
  }

  /** Beyond the reference's length, the observed payloads that reach there carry the same bytes. */
  ghost predicate AgreeBeyondReference(log: seq<Arrival>) {
    forall p: seq<byte>, q: seq<byte>, i ::
      Observed(log, p) && Observed(log, q) && |Reference(log)| <= i < |p| && i < |q| ==> p[i] == q[i]
  }

  /** The list names every bit that ever toggled if and only if nothing varied beyond the first payload. */
  lemma ListsAllIff(log: seq<Arrival>, out: seq<BitPos>)
    requires forall b :: b in out <==> b.byteIndex < |Reference(log)| && b.bit < 8 && Toggles(log, b.byteIndex, b.bit)
    ensures (forall b: BitPos :: b.bit < 8 && Toggles(log, b.byteIndex, b.bit) ==> b in out) <==>
      AgreeBeyondReference(log)
  {
    hide Bit, Observed, Reference;
    if forall b: BitPos :: b.bit < 8 && Toggles(log, b.byteIndex, b.bit) ==> b in out {
      forall p: seq<byte>, q: seq<byte>, i |
        Observed(log, p) && Observed(log, q) && |Reference(log)| <= i < |p| && i < |q|
        ensures p[i] == q[i]
      {
        forall k | 0 <= k < 8 ensures Bit(p[i], k) == Bit(q[i], k) {
          assert BitPos(i, k) !in out;
        }
        ByteSize();
        SameBitsSameNumber(p[i], q[i], 8);
      }
    }
  }

  // ---------------------------------------------------------------- payload lengths alone

  /** Every bit that ever toggled lies within the reference, and so is listed. */
  ghost predicate MissesNothing(log: seq<Arrival>) {
    forall i: nat, k: nat :: k < 8 && Toggles(log, i, k) ==> i < |Reference(log)|
  }

  ghost predicate HasLengths(log: seq<Arrival>, lengths: seq<Option<nat>>) {
    |log| == |lengths| && forall i :: 0 <= i < |log| ==>
      match lengths[i]
      case None => log[i].payload == None
      case Some(n) => log[i].payload.Some? && |log[i].payload.value| == n
  }

  /** The length of the first non-empty payload. */
  function ReferenceLength(lengths: seq<Option<nat>>): nat {
    if lengths == [] then 0
    else
      var before := ReferenceLength(lengths[..|lengths| - 1]);
      match lengths[|lengths| - 1]
      case Some(n) => if before == 0 then n else before
      case None => before
  }

  lemma {:induction false} ReferenceHasLength(log: seq<Arrival>, lengths: seq<Option<nat>>)
    requires HasLengths(log, lengths)
    ensures |Reference(log)| == ReferenceLength(lengths)
  {
    if log != [] {
      ReferenceHasLength(log[..|log| - 1], lengths[..|log| - 1]);
    }
  }

  predicate Longer(lengths: seq<Option<nat>>, i: nat)
    requires i < |lengths|
  {
    lengths[i].Some? && lengths[i].value > ReferenceLength(lengths)
  }

  /** At most one arrival carries more than the first non-empty one. */
  ghost predicate AtMostOneLonger(lengths: seq<Option<nat>>) {
    forall i, j :: 0 <= i < j < |lengths| ==> !(Longer(lengths, i) && Longer(lengths, j))
  }

  /** Payloads of these lengths, all zero but those of arrival `j`. */
  function Sample(lengths: seq<Option<nat>>, j: nat): (log: seq<Arrival>)
    ensures |log| == |lengths|
  {
    seq(|lengths|, i requires 0 <= i < |lengths| =>
      Arrival(i % MAX_U64, match lengths[i]
        case None => None
        case Some(n) => Some(seq(n, _ => if i == j then 1 else 0))))
  }

  lemma SampleToggles(lengths: seq<Option<nat>>, i: nat, j: nat)
    requires i < j < |lengths| && Longer(lengths, i) && Longer(lengths, j)
    ensures HasLengths(Sample(lengths, j), lengths) && !MissesNothing(Sample(lengths, j))
  {
    var log, r := Sample(lengths, j), ReferenceLength(lengths);
    ReferenceHasLength(log, lengths);
    hide Reference, ReferenceLength;
    var p, q := log[i].payload.value, log[j].payload.value;
    assert Observed(log, p) && Observed(log, q);
    assert p[r] == 0 && q[r] == 1 && !Bit(0, 0) && Bit(1, 0);
    assert Toggles(log, r, 0);
  }

  lemma OneLongerMissesNothing(log: seq<Arrival>, lengths: seq<Option<nat>>)
    requires HasLengths(log, lengths) && AtMostOneLonger(lengths)
    ensures MissesNothing(log)
  {
    ReferenceHasLength(log, lengths);
    hide Bit, Reference, ReferenceLength;
    forall i: nat, k: nat | k < 8 && Toggles(log, i, k) ensures i < |Reference(log)| {
      var p: seq<byte>, q: seq<byte> :|
        Observed(log, p) && Observed(log, q) && i < |p| && i < |q| && Bit(p[i], k) != Bit(q[i], k);
      var a :| 0 <= a < |log| && log[a].payload == Some(p);
      var b :| 0 <= b < |log| && log[b].payload == Some(q);
      assert p != q && a != b;
      assert Longer(lengths, a) <==> |p| > |Reference(log)|;
      assert Longer(lengths, b) <==> |q| > |Reference(log)|;
      assert !(Longer(lengths, a) && Longer(lengths, b));
    }
  }

  /** Whatever the payloads say, the list misses nothing, if and only if at most one of them is longer than the
      first non-empty one. */
  lemma ListsAllForLengths(lengths: seq<Option<nat>>)
    ensures (forall log :: HasLengths(log, lengths) ==> MissesNothing(log)) <==> AtMostOneLonger(lengths)
  {
    hide HasLengths, MissesNothing, Longer, Sample;
    if !AtMostOneLonger(lengths) {
      var i, j :| 0 <= i < j < |lengths| && Longer(lengths, i) && Longer(lengths, j);
      SampleToggles(lengths, i, j);
    } else {
      forall log | HasLengths(log, lengths) ensures MissesNothing(log) {
        OneLongerMissesNothing(log, lengths);
      }
    }
  }

  /** Three payloads of one, two and two bytes: bit 0 of byte 1 toggles, and lies outside the reference. */
  lemma ToggleBeyondReference()
    ensures var log := [Arrival(0, Some([1])), Arrival(1, Some([1, 2])), Arrival(2, Some([1, 3]))];
      Toggles(log, 1, 0) && |Reference(log)| == 1
  {
    var log := [Arrival(0, Some([1])), Arrival(1, Some([1, 2])), Arrival(2, Some([1, 3]))];
    assert log[1].payload == Some([1, 2]) && log[2].payload == Some([1, 3]);
    assert Observed(log, [1, 2]) && Observed(log, [1, 3]);
    assert log[..2][..1] == [Arrival(0, Some([1]))] && log[..2][1] == log[1] && log[..1][0] == log[0];
    assert Reference(log[..1]) == [1];
    assert Reference(log[..2]) == [1];
  }
}
