/** The logarithmic histogram of inter-arrival times, and the order statistics it estimates. */
module Histogram {
  import opened Basics
  import opened Buckets

  // ---------------------------------------------------------------- order statistics

  function InsertSorted(x: u64, s: seq<u64>): (r: seq<u64>)
    ensures |r| == |s| + 1 && multiset(r) == multiset(s) + multiset{x}
  {
    if s == [] then [x]
    else if x <= s[0] then [x] + s
    else
      assert s == [s[0]] + s[1..];
      [s[0]] + InsertSorted(x, s[1..])
  }

  function Sorted(s: seq<u64>): (r: seq<u64>)
    ensures |r| == |s|
  {
    if s == [] then [] else InsertSorted(s[|s| - 1], Sorted(s[..|s| - 1]))
  }

  predicate Ascending(s: seq<u64>) {
    forall i, j :: 0 <= i < j < |s| ==> s[i] <= s[j]
  }

  lemma AscendingCons(x: u64, s: seq<u64>)
    requires Ascending(s) && forall k :: 0 <= k < |s| ==> x <= s[k]
    ensures Ascending([x] + s)
  {
  }

  lemma {:induction false} InsertSortedFacts(x: u64, s: seq<u64>)
    requires Ascending(s)
    ensures Ascending(InsertSorted(x, s))
  {
    if s != [] && x > s[0] {
      InsertSortedFacts(x, s[1..]);
      var rest := InsertSorted(x, s[1..]);
      hide InsertSorted;
      forall k | 0 <= k < |rest| ensures s[0] <= rest[k] {
        assert rest[k] in multiset(rest);
      }
      AscendingCons(s[0], rest);
    }
  }

  /** `Sorted` is the ascending permutation. */
  lemma {:induction false} SortedFacts(s: seq<u64>)
    ensures Ascending(Sorted(s)) && multiset(Sorted(s)) == multiset(s)
  {
    if s != [] {
      SortedFacts(s[..|s| - 1]);
      assert s == s[..|s| - 1] + [s[|s| - 1]];
      InsertSortedFacts(s[|s| - 1], Sorted(s[..|s| - 1]));
    }
  }

  /** The `rank`-th smallest sample, counting from 1. */
  function OrderStatistic(samples: seq<u64>, rank: nat): u64
    requires 1 <= rank <= |samples|
  {
    Sorted(samples)[rank - 1]
  }

  // ---------------------------------------------------------------- counting by bucket

  /** Number of samples in buckets up to and including `i`. */
  function CountUpTo(samples: seq<u64>, i: int): nat {
    if samples == [] then 0
    else CountUpTo(samples[..|samples| - 1], i) + if Index(samples[|samples| - 1]) <= i then 1 else 0
  }

  lemma CountAppend(samples: seq<u64>, x: u64, i: int)
    ensures CountUpTo(samples + [x], i) == CountUpTo(samples, i) + if Index(x) <= i then 1 else 0
  {
    assert (samples + [x])[..|samples|] == samples;
  }

  lemma {:induction false} CountPrepend(x: u64, samples: seq<u64>, i: int)
    ensures CountUpTo([x] + samples, i) == CountUpTo(samples, i) + if Index(x) <= i then 1 else 0
  {
    hide Index;
    if samples == [] {
      assert [x] + samples == [] + [x];
      CountAppend([], x, i);
    } else {
      var k := |samples| - 1;
      CountPrepend(x, samples[..k], i);
      assert [x] + samples == ([x] + samples[..k]) + [samples[k]];
      CountAppend([x] + samples[..k], samples[k], i);
    }
  }

  lemma {:induction false} CountInsert(x: u64, s: seq<u64>, i: int)
    ensures CountUpTo(InsertSorted(x, s), i) == CountUpTo(s, i) + if Index(x) <= i then 1 else 0
  {
    hide Index;
    if s == [] {
      CountAppend([], x, i);
    } else if x <= s[0] {
      CountPrepend(x, s, i);
    } else {
      CountInsert(x, s[1..], i);
      CountPrepend(s[0], InsertSorted(x, s[1..]), i);
      CountPrepend(s[0], s[1..], i);
      assert s == [s[0]] + s[1..];
    }
  }

  lemma {:induction false} CountSorted(samples: seq<u64>, i: int)
    ensures CountUpTo(Sorted(samples), i) == CountUpTo(samples, i)
  {
    hide Index;
    if samples != [] {
      CountSorted(samples[..|samples| - 1], i);
      CountInsert(samples[|samples| - 1], Sorted(samples[..|samples| - 1]), i);
    }
  }

  lemma {:induction false} CountAll(samples: seq<u64>, i: int)
    requires forall k :: 0 <= k < |samples| ==> Index(samples[k]) <= i
    ensures CountUpTo(samples, i) == |samples|
  {
    hide Index;
    if samples != [] {
      CountAll(samples[..|samples| - 1], i);
    }
  }

  lemma {:induction false} CountNone(samples: seq<u64>)
    ensures CountUpTo(samples, -1) == 0
  {
    hide Index;
    if samples != [] {
      CountNone(samples[..|samples| - 1]);
    }
  }

  /** In ascending order, the samples up to bucket `i` are a prefix. */
  lemma {:induction false} PrefixCount(s: seq<u64>, rank: nat, i: int)
    requires Ascending(s) && 1 <= rank <= |s|
    ensures CountUpTo(s, i) >= rank <==> Index(s[rank - 1]) <= i
    ensures CountUpTo(s, i) <= |s|
  {
    var k := |s| - 1;
    var init := s[..k];
    if k > 0 {
      PrefixCount(init, if rank <= k then rank else k, i);
    }
    if Index(s[k]) <= i {
      forall j | 0 <= j < |s| ensures Index(s[j]) <= i {
        IndexMonotone(s[j], s[k]);
      }
      CountAll(s, i);
    } else if rank == |s| {
      assert CountUpTo(s, i) == CountUpTo(init, i);
    }
  }

  /** A bucket's cumulative count reaches `rank` exactly from the bucket of the `rank`-th smallest on. */
  lemma RankBucket(samples: seq<u64>, rank: nat, i: int)
    requires 1 <= rank <= |samples|
    ensures CountUpTo(samples, i) >= rank <==> Index(OrderStatistic(samples, rank)) <= i
  {
    hide Index, CountUpTo;
    SortedFacts(samples);
    CountSorted(samples, i);
    PrefixCount(Sorted(samples), rank, i);
  }

  function Sum(samples: seq<u64>): nat {
    if samples == [] then 0 else Sum(samples[..|samples| - 1]) + samples[|samples| - 1]
  }

  lemma {:induction false} SumBetween(samples: seq<u64>, lo: u64, hi: u64)
    requires forall k :: 0 <= k < |samples| ==> lo <= samples[k] <= hi
    ensures |samples| * lo <= Sum(samples) <= |samples| * hi
  {
    if samples != [] {
      var k := |samples| - 1;
      SumBetween(samples[..k], lo, hi);
      assert |samples| * lo == k * lo + lo && |samples| * hi == k * hi + hi;
    }
  }

  lemma QuotientBetween(sum: nat, n: nat, lo: nat, hi: nat)
    requires n > 0 && n * lo <= sum <= n * hi
    ensures lo <= sum / n <= hi
  {
    var q := sum / n;
    assert q * n <= sum < q * n + n;
    if q < lo { MulLe(q + 1, lo, n); }
    if q > hi { MulLe(hi + 1, q, n); }
  }

  function Clamp(x: u64, lo: u64, hi: u64): u64
    requires lo <= hi
  {
    if x < lo then lo else if x > hi then hi else x
  }

  /** `buckets[i]` is the number of samples in bucket `i`. */
  ghost predicate Counts(buckets: seq<nat>, samples: seq<u64>)
    requires |buckets| == BUCKETS
  {
    forall i :: 0 <= i < BUCKETS ==> buckets[i] == CountUpTo(samples, i) - CountUpTo(samples, i - 1)
  }

  lemma CountsAfter(buckets: seq<nat>, samples: seq<u64>, value: u64)
    requires |buckets| == BUCKETS && Counts(buckets, samples)
    ensures Index(value) < BUCKETS
    ensures Counts(buckets[Index(value) := buckets[Index(value)] + 1], samples + [value])
  {
    IndexInRange(value);
    hide Index, CountUpTo;
    forall j { CountAppend(samples, value, j); }
  }

  class LogHistogram {
    var buckets: seq<nat>
    var count: nat
    var min: u64
    var max: u64
    var sum: nat
    /** Everything recorded, in order. */
    ghost var samples: seq<u64>

    ghost predicate Valid()
      reads this
    {
      && |buckets| == BUCKETS && Counts(buckets, samples) && count == |samples| && sum == Sum(samples)
      && Extremes(samples, min, max)
    }

    static ghost predicate Extremes(samples: seq<u64>, min: u64, max: u64) {
      if samples == [] then min == MAX_U64 && max == 0
      else min in samples && max in samples && forall k :: 0 <= k < |samples| ==> min <= samples[k] <= max
    }

    constructor ()
      ensures Valid() && samples == []
    {
      buckets := seq(BUCKETS, _ => 0);
      count, min, max, sum := 0, MAX_U64, 0, 0;
      samples := [];
    }

    method Record(value: u64)
      requires Valid()
      modifies this
      ensures Valid() && samples == old(samples) + [value]
    {
      hide Index, Counts;
      var i := Index(value);
      CountsAfter(buckets, samples, value);
      buckets := buckets[i := buckets[i] + 1];
      count := count + 1;
      sum := sum + value;
      if value < min {
        min := value;
      }
      if value > max {
        max := value;
      }
      samples := samples + [value];
      assert samples[..|samples| - 1] == old(samples);
    }

    /** The mean, rounded down: narrowing the wide quotient loses nothing, since it lies among the samples. */
    method Mean() returns (mean: u64)
      requires Valid()
      ensures count == 0 ==> mean == 0
      ensures count > 0 ==> min <= mean <= max && mean == Sum(samples) / count
    {
      if count == 0 {
        return 0;
      }
      SumBetween(samples, min, max);
      QuotientBetween(sum, count, min, max);
      mean := sum / count;
    }

    /** Estimated quantile; `raw` is `ceil(q * count)`, clamped here to a rank. */
    method Quantile(raw: nat) returns (est: u64)
      requires Valid()
      ensures count == 0 ==> est == 0
      ensures count > 0 ==>
        var x := OrderStatistic(samples, Min(Max(raw, 1), count));
        Index(x) < BUCKETS && min <= max && est == Clamp(BucketLower(Index(x)), min, max)
    {
      if count == 0 {
        return 0;
      }
      hide Index, BucketLower, OrderStatistic;
      var target := Min(Max(raw, 1), count);
      ghost var x := OrderStatistic(samples, target);
      IndexInRange(x);
      CountNone(samples);
      var cum := 0;
      for i := 0 to BUCKETS
        invariant cum == CountUpTo(samples, i - 1) && cum < target
      {
        cum := cum + buckets[i];
        if cum >= target {
          RankBucket(samples, target, i);
          RankBucket(samples, target, i - 1);
          assert Index(x) == i;
          return Clamp(BucketLower(i), min, max);
        }
      }
      RankBucket(samples, target, BUCKETS - 1);
      assert false;
      est := max;
    }
  }

  // ---------------------------------------------------------------- what the estimate means

  /** The estimate at `rank`, as `Quantile` returns it. */
  function Estimate(samples: seq<u64>, rank: nat, min: u64, max: u64): u64
    requires 1 <= rank <= |samples| && LogHistogram.Extremes(samples, min, max)
  {
    IndexInRange(OrderStatistic(samples, rank));
    Clamp(BucketLower(Index(OrderStatistic(samples, rank))), min, max)
  }

  lemma StatisticIsSample(samples: seq<u64>, rank: nat)
    requires 1 <= rank <= |samples|
    ensures OrderStatistic(samples, rank) in samples
  {
    SortedFacts(samples);
    assert OrderStatistic(samples, rank) in multiset(Sorted(samples));
  }

  /** The estimate against the real order statistic `x`: never above it, and less than an eighth below. */
  lemma EstimateBrackets(samples: seq<u64>, rank: nat, min: u64, max: u64)
    requires 1 <= rank <= |samples| && LogHistogram.Extremes(samples, min, max)
    requires !Wraps(OrderStatistic(samples, rank))
    ensures var x, est := OrderStatistic(samples, rank), Estimate(samples, rank, min, max);
      && est == Max(min, ExactLower(Index(x)))
      && min <= est <= x <= max
      && (x >= 2 ==> 8 * (x - est) < x)
  {
    hide Index, BucketLower, ExactLower, OrderStatistic, Wraps;
    var x := OrderStatistic(samples, rank);
    StatisticIsSample(samples, rank);
    LowerExactIff(x);
    LowerBrackets(x);
  }

  /** Wrapped or not, the estimate is the larger of the minimum and the bucket's edge, and never too high. */
  lemma EstimateIs(samples: seq<u64>, rank: nat, min: u64, max: u64)
    requires 1 <= rank <= |samples| && LogHistogram.Extremes(samples, min, max)
    ensures var x, est := OrderStatistic(samples, rank), Estimate(samples, rank, min, max);
      Index(x) < BUCKETS && est == Max(min, BucketLower(Index(x))) && min <= est <= x <= max
  {
    hide Index, BucketLower, OrderStatistic;
    StatisticIsSample(samples, rank);
    LowerNeverAbove(OrderStatistic(samples, rank));
  }

  /** The estimate is less than an eighth low if and only if the statistic's bucket does not overflow, or the
      minimum, to which the estimate is clamped, is that close itself. */
  lemma EstimateResolvesIff(samples: seq<u64>, rank: nat, min: u64, max: u64)
    requires 1 <= rank <= |samples| && LogHistogram.Extremes(samples, min, max)
    requires OrderStatistic(samples, rank) >= 2
    ensures var x, est := OrderStatistic(samples, rank), Estimate(samples, rank, min, max);
      8 * (x - est) < x <==> !Wraps(x) || 8 * (x - min) < x
  {
    hide Index, BucketLower, OrderStatistic, Wraps, Estimate;
    EstimateIs(samples, rank, min, max);
    ResolutionIffNoWrap(OrderStatistic(samples, rank));
  }

  /** Higher ranks get no lower estimates, unless the lower statistic's edge is above the minimum and the higher
      statistic's has wrapped below it. */
  lemma EstimateMonotoneIff(samples: seq<u64>, r1: nat, r2: nat, min: u64, max: u64)
    requires 1 <= r1 <= r2 <= |samples| && LogHistogram.Extremes(samples, min, max)
    ensures var x1, x2 := OrderStatistic(samples, r1), OrderStatistic(samples, r2);
      && Index(x1) < BUCKETS
      && (Estimate(samples, r1, min, max) <= Estimate(samples, r2, min, max) <==>
          BucketLower(Index(x1)) <= min || !EdgeDrops(x1, x2))
  {
    hide Index, BucketLower, OrderStatistic, Estimate, EdgeDrops;
    StatisticsAscend(samples, r1, r2);
    EstimateIs(samples, r1, min, max);
    EstimateIs(samples, r2, min, max);
    EdgeDropsIff(OrderStatistic(samples, r1), OrderStatistic(samples, r2));
  }

  lemma StatisticsAscend(samples: seq<u64>, r1: nat, r2: nat)
    requires 1 <= r1 <= r2 <= |samples|
    ensures OrderStatistic(samples, r1) <= OrderStatistic(samples, r2)
  {
    SortedFacts(samples);
  }

  lemma {:induction false} InsertLast(x: u64, s: seq<u64>)
    requires forall k :: 0 <= k < |s| ==> s[k] < x
    ensures InsertSorted(x, s) == s + [x]
  {
    if s != [] { InsertLast(x, s[1..]); }
  }

  lemma {:induction false} AlreadySorted(s: seq<u64>)
    requires forall i, j :: 0 <= i < j < |s| ==> s[i] < s[j]
    ensures Sorted(s) == s
  {
    if s != [] {
      AlreadySorted(s[..|s| - 1]);
      InsertLast(s[|s| - 1], s[..|s| - 1]);
    }
  }

  const BELOW_OVERFLOW: u64 := 11 * 0x800_0000_0000_0000
  const FIRST_OVERFLOW: u64 := 3 * 0x2000_0000_0000_0000

  /** With an overflowing bucket, the higher of two ranks gets the lower estimate. */
  lemma OverflowBreaksMonotony()
    ensures var samples := [0, BELOW_OVERFLOW, FIRST_OVERFLOW];
      && LogHistogram.Extremes(samples, 0, FIRST_OVERFLOW)
      && Estimate(samples, 3, 0, FIRST_OVERFLOW) < Estimate(samples, 2, 0, FIRST_OVERFLOW)
  {
    hide Index, BucketLower, Estimate, Sorted, InsertSorted;
    var samples := [0, BELOW_OVERFLOW, FIRST_OVERFLOW];
    AlreadySorted(samples);
    assert samples[0] == 0 && samples[2] == FIRST_OVERFLOW;
    EstimateIs(samples, 2, 0, FIRST_OVERFLOW);
    EstimateIs(samples, 3, 0, FIRST_OVERFLOW);
    EdgeIn62(BELOW_OVERFLOW, 3);
    EdgeIn62(FIRST_OVERFLOW, 4);
  }
}
