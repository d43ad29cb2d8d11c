/** The evidence record of one trip, its identifier, and its storage row and key. */
module Trace {
  import opened Basics
  import opened CausalTypes
  import opened BackwardWalk
  import opened Ranking
  import opened AttributionTheorems

  // ---------------------------------------------------------------- byte strings

  type Bytes = seq<byte>

  /** Bytewise order of strings, a proper prefix first. */
  predicate LexLess(a: Bytes, b: Bytes) {
    b != [] && (a == [] || a[0] < b[0] || (a[0] == b[0] && LexLess(a[1..], b[1..])))
  }

  function Decimal(n: nat): Bytes {
    if n < 10 then [48 + n] else Decimal(n / 10) + [48 + n % 10]
  }

  /** Read decimal digits back. */
  function DecimalValue(s: Bytes): int {
    if s == [] then 0 else 10 * DecimalValue(s[..|s| - 1]) + (s[|s| - 1] as int - 48)
  }

  lemma {:induction false} DecimalRoundTrips(n: nat)
    ensures DecimalValue(Decimal(n)) == n
    ensures forall i :: 0 <= i < |Decimal(n)| ==> 48 <= Decimal(n)[i] < 58
  {
    if n < 10 {
      assert [48 + n][..0] == [];
    } else {
      DecimalRoundTrips(n / 10);
      assert Decimal(n)[..|Decimal(n)| - 1] == Decimal(n / 10);
    }
  }

  const COLON: byte := 58

  /** `appliance:ts:seq`. */
  function TraceId(applianceId: Bytes, tsNs: u64, seqNo: nat): Bytes {
    applianceId + [COLON] + Decimal(tsNs) + [COLON] + Decimal(seqNo)
  }

  lemma SeparatorNotBefore(a: Bytes, b: Bytes, c: Bytes, d: Bytes, sep: byte)
    requires a + [sep] + b == c + [sep] + d && sep !in c
    ensures |a| >= |c|
  {
    var s := a + [sep] + b;
    assert s[|a|] == sep;
    assert forall i :: 0 <= i < |c| ==> s[i] == c[i] && c[i] in c;
  }

  /** A separator that occurs in neither left part fixes where the parts end. */
  lemma SplitAtSeparator(a: Bytes, b: Bytes, c: Bytes, d: Bytes, sep: byte)
    requires a + [sep] + b == c + [sep] + d && sep !in a && sep !in c
    ensures a == c && b == d
  {
    var s := a + [sep] + b;
    SeparatorNotBefore(a, b, c, d, sep);
    SeparatorNotBefore(c, d, a, b, sep);
    assert s[..|a|] == a && s[..|a|] == c;
    assert s[|a| + 1..] == b && s[|a| + 1..] == d;
  }

  lemma CancelPrefix(a: Bytes, x: Bytes, y: Bytes)
    requires a + x == a + y
    ensures x == y
  {
    assert (a + x)[|a|..] == x && (a + y)[|a|..] == y;
  }

  lemma TraceIdParts(applianceId: Bytes, tsNs: u64, seqNo: nat)
    ensures TraceId(applianceId, tsNs, seqNo) == (applianceId + [COLON]) + (Decimal(tsNs) + [COLON] + Decimal(seqNo))
  {
    hide Decimal;
  }

  /** For one appliance, no two trips of different time or sequence number share an identifier. */
  lemma TraceIdInjective(applianceId: Bytes, t1: u64, s1: nat, t2: u64, s2: nat)
    requires TraceId(applianceId, t1, s1) == TraceId(applianceId, t2, s2)
    ensures t1 == t2 && s1 == s2
  {
    DecimalRoundTrips(t1);
    DecimalRoundTrips(s1);
    DecimalRoundTrips(t2);
    DecimalRoundTrips(s2);
    hide Decimal, DecimalValue;
    TraceIdParts(applianceId, t1, s1);
    TraceIdParts(applianceId, t2, s2);
    hide TraceId;
    CancelPrefix(applianceId + [COLON], Decimal(t1) + [COLON] + Decimal(s1), Decimal(t2) + [COLON] + Decimal(s2));
    SplitAtSeparator(Decimal(t1), Decimal(s1), Decimal(t2), Decimal(s2), COLON);
  }

  /** Spelled out: the appliance, a colon, the time in decimal, a colon, the sequence number in decimal. */
  lemma TraceIdSpells(applianceId: Bytes, tsNs: u64, seqNo: nat) returns (i: nat, j: nat)
    ensures var id := TraceId(applianceId, tsNs, seqNo);
      && i == |applianceId| < j < |id| && id[..i] == applianceId && id[i] == 58 && id[j] == 58
      && DecimalValue(id[i + 1..j]) == tsNs && DecimalValue(id[j + 1..]) == seqNo
      && forall k :: i < k < |id| && k != j ==> 48 <= id[k] < 58
  {
    DecimalRoundTrips(tsNs);
    DecimalRoundTrips(seqNo);
    hide Decimal, DecimalValue;
    var id := TraceId(applianceId, tsNs, seqNo);
    i, j := |applianceId|, |applianceId| + 1 + |Decimal(tsNs)|;
    assert id[i + 1..j] == Decimal(tsNs) && id[j + 1..] == Decimal(seqNo);
  }

  /** The most significant digit comes first. */
  lemma DecimalOf120()
    ensures Decimal(120) == [49, 50, 48]
  {
    assert Decimal(1) == [49];
    assert Decimal(12) == [49, 50];
  }

  // ---------------------------------------------------------------- big-endian keys

  /** The `n` low bytes of `v`, most significant first. */
  function BigEndian(v: nat, n: nat): (b: Bytes)
    ensures |b| == n
  {
    if n == 0 then [] else BigEndian(v / 0x100, n - 1) + [v % 0x100]
  }

  function FromBigEndian(b: Bytes): nat {
    if b == [] then 0 else 0x100 * FromBigEndian(b[..|b| - 1]) + b[|b| - 1]
  }

  function Pow256(n: nat): nat {
    if n == 0 then 1 else 0x100 * Pow256(n - 1)
  }

  lemma {:induction false} BigEndianRoundTrips(v: nat, n: nat)
    requires v < Pow256(n)
    ensures FromBigEndian(BigEndian(v, n)) == v
  {
    if n > 0 {
      BigEndianRoundTrips(v / 0x100, n - 1);
      assert BigEndian(v, n)[..n - 1] == BigEndian(v / 0x100, n - 1);
    }
  }

  /** Byte order on big-endian numbers followed by anything is numeric order, then the order of the rest. */
  lemma {:induction false} BigEndianOrders(v: nat, w: nat, n: nat, a: Bytes, b: Bytes)
    requires v < Pow256(n) && w < Pow256(n)
    ensures LexLess(BigEndian(v, n) + a, BigEndian(w, n) + b) <==> v < w || (v == w && LexLess(a, b))
  {
    if n == 0 {
      assert BigEndian(v, 0) + a == a && BigEndian(w, 0) + b == b;
    } else {
      var a', b' := [v % 0x100] + a, [w % 0x100] + b;
      assert BigEndian(v, n) + a == BigEndian(v / 0x100, n - 1) + a';
      assert BigEndian(w, n) + b == BigEndian(w / 0x100, n - 1) + b';
      hide BigEndian;
      BigEndianOrders(v / 0x100, w / 0x100, n - 1, a', b');
      assert a'[1..] == a && b'[1..] == b;
    }
  }

  /** The store's key: time, most significant byte first, then the identifier. */
  function KeyBytes(tsNs: u64, traceId: Bytes): Bytes {
    BigEndian(tsNs, 8) + traceId
  }

  lemma U64Fits(v: u64)
    ensures v < Pow256(8)
  {
    assert Pow256(4) == 0x1_0000_0000;
  }

  // ---------------------------------------------------------------- the evidence record

  datatype FindingClass = AttributableNuisanceTrip | UnattributedTrip

  /** A candidate flattened for the record: its normalized overrun is `(observedDtNs - wcetNs) / wcetNs`, and the
      transitions are named by their sequence numbers. */
  datatype TraceCatalyst = TraceCatalyst(
    edgeFrom: NodeId, edgeTo: NodeId, observedDtNs: u64, wcetNs: u64, triggerSeq: nat, effectSeq: nat)

  function Flatten(c: CandidateCatalyst): TraceCatalyst {
    TraceCatalyst(c.edge.from, c.edge.to, c.observedDtNs, c.wcetNs, c.trigger.seqNo, c.effect.seqNo)
  }

  function FlattenAll(cs: seq<CandidateCatalyst>): (r: seq<TraceCatalyst>)
    ensures |r| == |cs| && forall i :: 0 <= i < |cs| ==> r[i] == Flatten(cs[i])
  {
    seq(|cs|, i requires 0 <= i < |cs| => Flatten(cs[i]))
  }

  datatype CausalTrace = CausalTrace(
    traceId: Bytes, applianceId: Bytes, tripTsNs: u64,
    rootCatalyst: Option<TraceCatalyst>, rankedCatalysts: seq<TraceCatalyst>,
    safetyFunctionId: Bytes, configuredBudgetNs: u64,
    observedResponseTimeNs: u64, responseWithinBudget: bool, finding: FindingClass)

  function Build(applianceId: Bytes, analysis: TripAnalysis, safetyFunctionId: Bytes, budgetNs: u64): CausalTrace {
    var trip := analysis.tripEvent;
    var root := if analysis.rankedCatalysts == [] then None else Some(analysis.rankedCatalysts[0]);
    var observed := if root.Some? then SaturatingSub(trip.tsNs, root.value.trigger.tsNs) else 0;
    CausalTrace(TraceId(applianceId, trip.tsNs, trip.seqNo), applianceId, trip.tsNs,
      if root.Some? then Some(Flatten(root.value)) else None, FlattenAll(analysis.rankedCatalysts),
      safetyFunctionId, budgetNs,
      observed, observed <= budgetNs && root.Some?, if root.Some? then AttributableNuisanceTrip else UnattributedTrip)
  }

  /** The recorded response time is the sum of the gaps along the root catalyst's followed chain, and
      positive; without a catalyst nothing is claimed about the response. */
  lemma ResponseTimeIsChainSum(applianceId: Bytes, edges: seq<DependencyEdge>, view: seq<StateTransition>,
                               trip: StateTransition, safetyFunctionId: Bytes, budgetNs: u64)
    returns (chain: seq<Step>)
    ensures var t := Build(applianceId, Attribution(edges, view, trip), safetyFunctionId, budgetNs);
      && (t.finding.UnattributedTrip? <==> forall s :: s in WalkFromTrip(edges, view, trip) ==> !s.OverBudget())
      && (t.finding.UnattributedTrip? ==> t.rootCatalyst == None && !t.responseWithinBudget)
      && (t.finding.AttributableNuisanceTrip? ==>
            && IsChain(WalkFromTrip(edges, view, trip), trip, chain)
            && Some(Flatten(CandidateOf(Last(chain)))) == t.rootCatalyst
            && 0 < t.observedResponseTimeNs == SumDt(chain)
            && (t.responseWithinBudget <==> SumDt(chain) <= budgetNs))
  {
    hide WalkFromTrip, Rank;
    UnattributedIffWithinBudget(edges, view, trip);
    if Attribution(edges, view, trip).rankedCatalysts != [] {
      chain := RootEndsContiguousChain(edges, view, trip);
    } else {
      chain := [];
    }
  }

  /** `rootOverrun` holds the normalized overrun of the root as the exact pair of excess and budget. */
  datatype TraceRow = TraceRow(
    tripTsNs: u64, traceId: Bytes, applianceId: Bytes, safetyFnId: Bytes, attributed: bool,
    rootOverrun: Option<(int, u64)>, evidence: CausalTrace)
  {
    function RocksdbKey(): Bytes {
      KeyBytes(tripTsNs, traceId)
    }
  }

  function FromTrace(t: CausalTrace): TraceRow {
    TraceRow(t.tripTsNs, t.traceId, t.applianceId, t.safetyFunctionId, t.finding.AttributableNuisanceTrip?,
      match t.rootCatalyst
        case None => None
        case Some(c) => Some((c.observedDtNs as int - c.wcetNs, c.wcetNs)),
      t)
  }
}
