/** Candidate catalysts and their ranking by normalized overrun, kept as an exact fraction. */
module Ranking {
  import opened Basics
  import opened CausalTypes
  import opened BackwardWalk

  datatype CandidateCatalyst = CandidateCatalyst(
    edge: DependencyEdge, observedDtNs: u64, wcetNs: u64, trigger: StateTransition, effect: StateTransition)
  {
    /** Numerator of the normalized overrun; `wcetNs` is its denominator. */
    function Excess(): int {
      observedDtNs as int - wcetNs
    }
    predicate Exceeds() {
      Excess() > 0
    }
  }

  /** The overrun of `a` is at least that of `b`. A zero budget makes the overrun infinite. */
  predicate AtLeastAsSevere(a: CandidateCatalyst, b: CandidateCatalyst) {
    a.Excess() * b.wcetNs >= b.Excess() * a.wcetNs
  }

  predicate SameSeverity(a: CandidateCatalyst, b: CandidateCatalyst) {
    AtLeastAsSevere(a, b) && AtLeastAsSevere(b, a)
  }

  lemma FractionsCompose(n1: int, d1: int, n2: int, d2: int, n3: int, d3: int)
    requires n1 > 0 && n2 > 0 && d1 >= 0 && d2 >= 0 && d3 >= 0
    requires n1 * d2 >= n2 * d1 && n2 * d3 >= n3 * d2
    ensures n1 * d3 >= n3 * d1
  {
    if d2 == 0 {
      Cancel(0, d1, n2);
      assert n1 * d3 >= 0;
    } else {
      assert (n1 * d2) * d3 >= (n2 * d1) * d3 by { MulLe(n2 * d1, n1 * d2, d3); }
      assert (n2 * d3) * d1 >= (n3 * d2) * d1 by { MulLe(n3 * d2, n2 * d3, d1); }
      assert (n1 * d3) * d2 == (n1 * d2) * d3 && (n2 * d1) * d3 == (n2 * d3) * d1 && (n3 * d2) * d1 == (n3 * d1) * d2;
      Cancel(n1 * d3, n3 * d1, d2);
    }
  }

  lemma SeverityTransitive(a: CandidateCatalyst, b: CandidateCatalyst, c: CandidateCatalyst)
    requires a.Exceeds() && b.Exceeds()
    requires AtLeastAsSevere(a, b) && AtLeastAsSevere(b, c)
    ensures AtLeastAsSevere(a, c)
  {
    FractionsCompose(a.Excess(), a.wcetNs, b.Excess(), b.wcetNs, c.Excess(), c.wcetNs);
  }

  function Insert(c: CandidateCatalyst, ranked: seq<CandidateCatalyst>): (r: seq<CandidateCatalyst>)
    ensures multiset(r) == multiset{c} + multiset(ranked)
  {
    if ranked == [] then [c]
    else if AtLeastAsSevere(c, ranked[0]) then [c] + ranked
    else
      assert ranked == [ranked[0]] + ranked[1..];
      [ranked[0]] + Insert(c, ranked[1..])
  }

  /** The stable library sort, most severe first. */
  function Rank(cs: seq<CandidateCatalyst>): (r: seq<CandidateCatalyst>)
    ensures multiset(r) == multiset(cs)
  {
    if cs == [] then []
    else
      assert cs == [cs[0]] + cs[1..];
      Insert(cs[0], Rank(cs[1..]))
  }

  predicate AllExceed(cs: seq<CandidateCatalyst>) {
    forall c :: c in cs ==> c.Exceeds()
  }

  predicate MostSevereFirst(cs: seq<CandidateCatalyst>) {
    forall i, j :: 0 <= i < j < |cs| ==> AtLeastAsSevere(cs[i], cs[j])
  }

  lemma {:induction false} InsertKeepsOrder(c: CandidateCatalyst, ranked: seq<CandidateCatalyst>)
    requires c.Exceeds() && AllExceed(ranked) && MostSevereFirst(ranked)
    ensures MostSevereFirst(Insert(c, ranked)) && AllExceed(Insert(c, ranked))
  {
    var r := Insert(c, ranked);
    forall x | x in r ensures x.Exceeds() { assert x in multiset(r); }
    if ranked != [] {
      if AtLeastAsSevere(c, ranked[0]) {
        forall j | 0 < j < |r| ensures AtLeastAsSevere(r[0], r[j]) {
          if j > 1 { SeverityTransitive(c, ranked[0], r[j]); }
        }
      } else {
        InsertKeepsOrder(c, ranked[1..]);
        forall j | 0 < j < |r| ensures AtLeastAsSevere(r[0], r[j]) {
          assert r[j] in multiset(Insert(c, ranked[1..]));
          if r[j] != c {
            var k :| 1 <= k < |ranked| && ranked[k] == r[j];
          }
        }
      }
    }
  }

  /** The ranking is ordered by non-increasing overrun. */
  lemma {:induction false} RankOrders(cs: seq<CandidateCatalyst>)
    requires AllExceed(cs)
    ensures MostSevereFirst(Rank(cs)) && AllExceed(Rank(cs))
  {
    if cs != [] {
      RankOrders(cs[1..]);
      InsertKeepsOrder(cs[0], Rank(cs[1..]));
    }
  }

  /** The candidates exactly as severe as `x`, in order. */
  function ClassOf(cs: seq<CandidateCatalyst>, x: CandidateCatalyst): seq<CandidateCatalyst> {
    if cs == [] then []
    else (if SameSeverity(cs[0], x) then [cs[0]] else []) + ClassOf(cs[1..], x)
  }

  lemma ClassOfCons(c: CandidateCatalyst, cs: seq<CandidateCatalyst>, x: CandidateCatalyst)
    ensures ClassOf([c] + cs, x) == (if SameSeverity(c, x) then [c] else []) + ClassOf(cs, x)
  {
    assert ([c] + cs)[1..] == cs;
  }

  lemma {:induction false} InsertIsStable(c: CandidateCatalyst, ranked: seq<CandidateCatalyst>, x: CandidateCatalyst)
    requires c.Exceeds() && x.Exceeds() && AllExceed(ranked)
    ensures ClassOf(Insert(c, ranked), x) == ClassOf([c] + ranked, x)
  {
    hide AtLeastAsSevere, CandidateCatalyst.Exceeds, ClassOf;
    assert [c] + [] == [c];
    if ranked != [] && !AtLeastAsSevere(c, ranked[0]) {
      var first, rest := ranked[0], ranked[1..];
      InsertIsStable(c, rest, x);
      assert ranked == [first] + rest;
      ClassOfCons(first, Insert(c, rest), x);
      ClassOfCons(c, rest, x);
      ClassOfCons(c, ranked, x);
      ClassOfCons(first, rest, x);
      if SameSeverity(c, x) && SameSeverity(first, x) {
        SeverityTransitive(c, x, first);
      }
    }
  }

  /** Equally severe candidates keep the order in which the walk found them. */
  lemma {:induction false} RankIsStable(cs: seq<CandidateCatalyst>, x: CandidateCatalyst)
    requires AllExceed(cs) && x.Exceeds()
    ensures ClassOf(Rank(cs), x) == ClassOf(cs, x)
  {
    if cs != [] {
      RankIsStable(cs[1..], x);
      RankOrders(cs[1..]);
      InsertIsStable(cs[0], Rank(cs[1..]), x);
      assert ([cs[0]] + Rank(cs[1..]))[1..] == Rank(cs[1..]);
    }
  }

  // ---------------------------------------------------------------- from steps to candidates

  function CandidateOf(s: Step): CandidateCatalyst {
    CandidateCatalyst(s.edge, s.Dt(), s.edge.wcetNs, s.trigger, s.effect)
  }

  /** The over-budget steps, in walk order. */
  function Candidates(log: seq<Step>): (r: seq<CandidateCatalyst>)
    ensures |r| <= |log|
  {
    if log == [] then []
    else
      var last := log[|log| - 1];
      Candidates(log[..|log| - 1]) + if last.OverBudget() then [CandidateOf(last)] else []
  }

  lemma {:induction false} CandidatesExact(log: seq<Step>)
    ensures forall c :: c in Candidates(log) <==> exists s :: s in log && s.OverBudget() && CandidateOf(s) == c
  {
    if log != [] {
      var init, last := log[..|log| - 1], log[|log| - 1];
      assert log == init + [last];
      CandidatesExact(init);
    }
  }

  lemma CandidatesExceed(log: seq<Step>)
    ensures AllExceed(Candidates(log))
  {
    CandidatesExact(log);
  }

  lemma CandidatesAppend(a: seq<Step>, b: seq<Step>)
    ensures Candidates(a + b) == Candidates(a) + Candidates(b)
  {
    if b == [] {
      assert a + b == a;
    } else {
      var init := b[..|b| - 1];
      assert (a + b)[..|a + b| - 1] == a + init;
      CandidatesAppend(a, init);
    }
  }

  datatype TripAnalysis = TripAnalysis(tripEvent: StateTransition, rankedCatalysts: seq<CandidateCatalyst>)

  /** The analysis of a trip, as a function of the declared edges and the ring's view. */
  function Attribution(edges: seq<DependencyEdge>, view: seq<StateTransition>, trip: StateTransition): TripAnalysis {
    TripAnalysis(trip, Rank(Candidates(WalkFromTrip(edges, view, trip))))
  }
}
