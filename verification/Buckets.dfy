/** Bucket arithmetic of the logarithmic histogram, at its one production resolution of eight
    sub-buckets per power of two. */
module Buckets {
  import opened Basics

  const SUB: nat := 8
  const BUCKETS: nat := 512

  /** `64 - leading_zeros`. */
  function BitLength(v: nat): nat {
    if v == 0 then 0 else 1 + BitLength(v / 2)
  }

  lemma {:induction false} BitLengthBounds(v: nat)
    requires v > 0
    ensures BitLength(v) > 0 && Pow2(BitLength(v) - 1) <= v < 2 * Pow2(BitLength(v) - 1)
  {
    if v > 1 {
      BitLengthBounds(v / 2);
    }
  }

  lemma {:induction false} Pow2Monotone(a: nat, b: nat)
    requires a <= b
    ensures Pow2(a) <= Pow2(b)
    ensures a < b ==> 2 * Pow2(a) <= Pow2(b)
    decreases b
  {
    if a < b {
      Pow2Monotone(a, b - 1);
    }
  }

  lemma Pow2Values()
    ensures Pow2(3) == 8 && Pow2(16) == 0x1_0000 && Pow2(32) == 0x1_0000_0000
    ensures Pow2(61) == 0x2000_0000_0000_0000 && Pow2(62) == 0x4000_0000_0000_0000
    ensures Pow2(63) == 0x8000_0000_0000_0000 && Pow2(64) == TWO_64
  {
    assert Pow2(8) == 0x100;
    assert Pow2(16) == 0x1_0000;
    assert Pow2(24) == 0x100_0000;
    assert Pow2(32) == 0x1_0000_0000;
    assert Pow2(40) == 0x100_0000_0000;
    assert Pow2(48) == 0x1_0000_0000_0000;
    assert Pow2(56) == 0x100_0000_0000_0000;
    assert Pow2(60) == 0x1000_0000_0000_0000;
  }

  /** Sub-bucket of `value` within its power-of-two band, whose lower end and width are `base`. */
  function SubOf(value: nat, base: nat): nat
    requires base > 0 && value >= base
  {
    Min((value - base) * SUB / base, SUB - 1)
  }

  function Index(value: u64): nat {
    if value == 0 then 0
    else
      BitLengthBounds(value);
      var band := BitLength(value);
      (band - 1) * SUB + SubOf(value, Pow2(band - 1))
  }

  /** Lower edge of a bucket in 64-bit arithmetic: the product wraps. */
  function BucketLower(idx: nat): u64
    requires idx < BUCKETS
  {
    var band, sub := idx / SUB, idx % SUB;
    if band == 0 && sub == 0 then 0
    else
      Pow2Monotone(band, 63);
      Pow2Values();
      Pow2(band) + (sub * Pow2(band)) % TWO_64 / SUB
  }

  /** Lower edge of a bucket over the integers. */
  function ExactLower(idx: nat): nat {
    var band, sub := idx / SUB, idx % SUB;
    if band == 0 && sub == 0 then 0 else Pow2(band) + sub * Pow2(band) / SUB
  }

  lemma SubBounds(value: nat, base: nat)
    requires 0 < base <= value < 2 * base
    ensures SubOf(value, base) == (value - base) * SUB / base < SUB
    ensures SubOf(value, base) * base <= (value - base) * SUB < SubOf(value, base) * base + base
  {
    var n := (value - base) * SUB;
    var q := n / base;
    assert n == q * base + n % base;
    if q >= SUB {
      MulLe(SUB, q, base);
    }
  }

  /** The band and sub-bucket of a positive value can be read back from its index. */
  lemma IndexParts(value: u64)
    requires value > 0
    ensures var base := Pow2(BitLength(value) - 1);
      && BitLength(value) > 0 && base <= value < 2 * base
      && Index(value) / SUB == BitLength(value) - 1 && Index(value) % SUB == SubOf(value, base)
      && BitLength(value) <= 64 && Index(value) < BUCKETS
  {
    BitLengthBounds(value);
    SubBounds(value, Pow2(BitLength(value) - 1));
    if BitLength(value) > 64 {
      Pow2Monotone(64, BitLength(value) - 1);
      Pow2Values();
    }
  }

  lemma IndexInRange(value: u64)
    ensures Index(value) < BUCKETS
  {
    if value > 0 { IndexParts(value); }
  }

  /** Larger values never fall in an earlier bucket. */
  lemma IndexMonotone(a: u64, b: u64)
    requires a <= b
    ensures Index(a) <= Index(b)
  {
    if a > 0 {
      IndexParts(a);
      IndexParts(b);
      hide Index, BitLength, SubOf;
      var p, q := BitLength(a) - 1, BitLength(b) - 1;
      if p > q {
        Pow2Monotone(q, p);
        assert false;
      } else if p == q {
        var base := Pow2(p);
        SubBounds(a, base);
        SubBounds(b, base);
        DivMonotone((a - base) * SUB, (b - base) * SUB, base);
      }
    }
  }

  lemma DivMonotone(a: nat, b: nat, d: nat)
    requires a <= b && d > 0
    ensures a / d <= b / d
  {
    var p, q := a / d, b / d;
    assert a == p * d + a % d && b == q * d + b % d;
    if p > q { MulLe(q + 1, p, d); }
  }

  /** Later buckets start no lower. */
  lemma ExactLowerMonotone(i: nat, j: nat)
    requires i <= j
    ensures ExactLower(i) <= ExactLower(j)
  {
    var p, q := Pow2(i / SUB), Pow2(j / SUB);
    if i / SUB == j / SUB {
      MulLe(i % SUB, j % SUB, p);
    } else {
      DivMonotone(i, j, SUB);
      Pow2Monotone(i / SUB, j / SUB);
      hide Pow2;
      UnderNextBand(p, i % SUB);
    }
  }

  lemma UnderNextBand(base: nat, sub: nat)
    requires sub < SUB
    ensures base + sub * base / SUB <= 2 * base
  {
    MulLe(sub, SUB, base);
  }

  /** Within 1/8 below: exact for 0 and for every value under 16, and always less than an eighth low. */
  lemma LowerBrackets(value: u64)
    ensures ExactLower(Index(value)) <= value
    ensures value >= 2 ==> 8 * (value - ExactLower(Index(value))) < value
    ensures value == 0 ==> ExactLower(Index(value)) == 0
    ensures value == 1 ==> ExactLower(Index(value)) == 0
  {
    if value > 0 {
      IndexParts(value);
      var k := BitLength(value) - 1;
      var base := Pow2(k);
      SubBounds(value, base);
      var sub := SubOf(value, base);
      if k >= 3 {
        EighthsAreWhole(k, sub);
      } else {
        assert Pow2(0) == 1 && Pow2(1) == 2 && Pow2(2) == 4;
      }
    }
  }

  lemma EighthsAreWhole(k: nat, sub: nat)
    requires k >= 3
    ensures 8 * (sub * Pow2(k) / SUB) == sub * Pow2(k)
  {
    var p := Pow2(k - 3);
    assert Pow2(k - 2) == 2 * p;
    assert Pow2(k - 1) == 4 * p;
    assert Pow2(k) == 8 * p;
    assert sub * (8 * p) == 8 * (sub * p);
  }

  // ---------------------------------------------------------------- where the product wraps

  /** The values for which `sub * band_width` does not fit in 64 bits. */
  predicate Wraps(value: u64) {
    3 * 0x2000_0000_0000_0000 <= value < 0x8000_0000_0000_0000 || value >= 5 * 0x2000_0000_0000_0000
  }

  /** The product that `bucket_lower` forms for a value's bucket. */
  function Product(value: u64): nat
    requires value > 0
  {
    BitLengthBounds(value);
    SubOf(value, Pow2(BitLength(value) - 1)) * Pow2(BitLength(value) - 1)
  }

  lemma WrapsIffProductTooBig(value: u64)
    requires value > 0
    ensures Wraps(value) <==> Product(value) >= TWO_64
  {
    hide BitLength, SubOf, Index;
    IndexParts(value);
    Pow2Values();
    hide Pow2;
    var k := BitLength(value) - 1;
    SubBounds(value, Pow2(k));
    if k <= 61 {
      Pow2Monotone(k, 61);
      SmallBandFits(SubOf(value, Pow2(k)), Pow2(k));
    } else if k == 62 {
      Band62(value, SubOf(value, Pow2(k)));
    } else {
      Band63(value, SubOf(value, Pow2(k)));
    }
  }

  lemma Band62(value: u64, sub: nat)
    requires 0x4000_0000_0000_0000 <= value < 0x8000_0000_0000_0000
    requires 0 <= (value - 0x4000_0000_0000_0000) * SUB - sub * 0x4000_0000_0000_0000 < 0x4000_0000_0000_0000
    ensures Wraps(value) <==> sub * 0x4000_0000_0000_0000 >= TWO_64
  {
  }

  lemma Band63(value: u64, sub: nat)
    requires 0x8000_0000_0000_0000 <= value
    requires 0 <= (value - 0x8000_0000_0000_0000) * SUB - sub * 0x8000_0000_0000_0000 < 0x8000_0000_0000_0000
    ensures Wraps(value) <==> sub * 0x8000_0000_0000_0000 >= TWO_64
  {
  }

  lemma SmallBandFits(sub: nat, base: nat)
    requires sub <= 7 && base <= 0x2000_0000_0000_0000
    ensures sub * base < TWO_64
  {
    MulLe(sub, 7, base);
  }

  /** 64-bit bucket edges are exact precisely for the values that do not wrap. */
  lemma LowerExactIff(value: u64)
    ensures Index(value) < BUCKETS
    ensures BucketLower(Index(value)) == ExactLower(Index(value)) <==> !Wraps(value)
  {
    IndexInRange(value);
    if value > 0 {
      IndexParts(value);
      WrapsIffProductTooBig(value);
      WrappedProduct(Product(value));
    }
  }

  lemma WrappedProduct(product: nat)
    ensures product < TWO_64 ==> product % TWO_64 == product
    ensures product >= TWO_64 ==> (product % TWO_64) / SUB + TWO_64 / SUB <= product / SUB
  {
    if product >= TWO_64 {
      assert product % TWO_64 == product - TWO_64 * (product / TWO_64);
    }
  }

  lemma LowerNeverAboveExact(value: u64)
    ensures Index(value) < BUCKETS && BucketLower(Index(value)) <= ExactLower(Index(value))
  {
    LowerExactIff(value);
    if Wraps(value) {
      IndexParts(value);
      WrapsIffProductTooBig(value);
      WrappedProduct(Product(value));
    }
  }

  /** Wrapped or not, a bucket's edge is never above its values. */
  lemma LowerNeverAbove(value: u64)
    ensures Index(value) < BUCKETS && BucketLower(Index(value)) <= value
  {
    LowerNeverAboveExact(value);
    LowerBrackets(value);
  }

  lemma SubIn62(value: u64, sub: nat)
    requires 0x4000_0000_0000_0000 <= value < 0x8000_0000_0000_0000
    requires sub == (value - 0x4000_0000_0000_0000) / 0x800_0000_0000_0000
    ensures SubOf(value, 0x4000_0000_0000_0000) == sub < SUB
  {
  }

  lemma LowerIn62(sub: nat)
    requires sub < SUB
    ensures BucketLower(62 * SUB + sub) == 0x4000_0000_0000_0000 + sub % 4 * 0x800_0000_0000_0000
  {
    Pow2Values();
    hide Pow2;
    assert (62 * SUB + sub) / SUB == 62 && (62 * SUB + sub) % SUB == sub;
  }

  /** The edges in the band from 2^62: the four upper ones have wrapped. */
  lemma EdgeIn62(value: u64, sub: nat)
    requires 0x4000_0000_0000_0000 <= value < 0x8000_0000_0000_0000
    requires sub == (value - 0x4000_0000_0000_0000) / 0x800_0000_0000_0000
    ensures Index(value) < BUCKETS
    ensures BucketLower(Index(value)) == 0x4000_0000_0000_0000 + sub % 4 * 0x800_0000_0000_0000
  {
    hide Pow2, BitLength, SubOf, BucketLower;
    Pow2Values();
    BitLengthBounds(value);
    var p := BitLength(value) - 1;
    if p < 62 { Pow2Monotone(p, 62); }
    if 62 < p { Pow2Monotone(62, p); }
    SubIn62(value, sub);
    LowerIn62(sub);
  }

  lemma SubIn63(value: u64, sub: nat)
    requires 0x8000_0000_0000_0000 <= value && sub == (value - 0x8000_0000_0000_0000) / 0x1000_0000_0000_0000
    ensures SubOf(value, 0x8000_0000_0000_0000) == sub < SUB
  {
  }

  lemma LowerIn63(sub: nat)
    requires sub < SUB
    ensures BucketLower(63 * SUB + sub) == 0x8000_0000_0000_0000 + sub % 2 * 0x1000_0000_0000_0000
  {
    Pow2Values();
    hide Pow2;
    assert (63 * SUB + sub) / SUB == 63 && (63 * SUB + sub) % SUB == sub;
  }

  /** The edges in the band from 2^63: all but the two lowest have wrapped. */
  lemma EdgeIn63(value: u64, sub: nat)
    requires 0x8000_0000_0000_0000 <= value && sub == (value - 0x8000_0000_0000_0000) / 0x1000_0000_0000_0000
    ensures Index(value) < BUCKETS
    ensures BucketLower(Index(value)) == 0x8000_0000_0000_0000 + sub % 2 * 0x1000_0000_0000_0000
  {
    hide Pow2, BitLength, SubOf, BucketLower;
    Pow2Values();
    BitLengthBounds(value);
    var p := BitLength(value) - 1;
    if p < 63 { Pow2Monotone(p, 63); }
    if 63 < p { Pow2Monotone(63, p); }
    SubIn63(value, sub);
    LowerIn63(sub);
  }

  /** The larger value's edge has wrapped below the smaller one's: both in the band from 2^62, on either side of
      the wrap, or both in the band from 2^63, from an odd to an even sub-bucket. */
  predicate EdgeDrops(x1: u64, x2: u64) {
    if x1 < 0x4000_0000_0000_0000 then false
    else if x2 < 0x8000_0000_0000_0000 then
      x1 < 0x8000_0000_0000_0000
      && var s1 := (x1 - 0x4000_0000_0000_0000) / 0x800_0000_0000_0000;
      var s2 := (x2 - 0x4000_0000_0000_0000) / 0x800_0000_0000_0000;
      s1 < 4 <= s2 && s1 > s2 - 4
    else
      x1 >= 0x8000_0000_0000_0000
      && (x1 - 0x8000_0000_0000_0000) / 0x1000_0000_0000_0000 % 2 == 1
      && (x2 - 0x8000_0000_0000_0000) / 0x1000_0000_0000_0000 % 2 == 0
  }

  /** A larger value has a lower 64-bit edge in exactly those cases. */
  lemma EdgeDropsIff(x1: u64, x2: u64)
    requires x1 <= x2
    ensures Index(x1) < BUCKETS && Index(x2) < BUCKETS
    ensures BucketLower(Index(x2)) < BucketLower(Index(x1)) <==> EdgeDrops(x1, x2)
  {
    hide Index, BucketLower, ExactLower;
    LowerNeverAbove(x1);
    if x2 < 0x4000_0000_0000_0000 {
      LowerExactIff(x1);
      LowerExactIff(x2);
      IndexMonotone(x1, x2);
      ExactLowerMonotone(Index(x1), Index(x2));
    } else if x2 < 0x8000_0000_0000_0000 {
      EdgeIn62(x2, (x2 - 0x4000_0000_0000_0000) / 0x800_0000_0000_0000);
      if x1 >= 0x4000_0000_0000_0000 {
        EdgeIn62(x1, (x1 - 0x4000_0000_0000_0000) / 0x800_0000_0000_0000);
      }
    } else {
      EdgeIn63(x2, (x2 - 0x8000_0000_0000_0000) / 0x1000_0000_0000_0000);
      if x1 >= 0x8000_0000_0000_0000 {
        EdgeIn63(x1, (x1 - 0x8000_0000_0000_0000) / 0x1000_0000_0000_0000);
      }
    }
  }

  /** The documented one-eighth resolution holds of the 64-bit estimate if and only if nothing wraps. */
  lemma ResolutionIffNoWrap(value: u64)
    requires value >= 2
    ensures Index(value) < BUCKETS
    ensures (BucketLower(Index(value)) <= value && 8 * (value - BucketLower(Index(value))) < value) <==> !Wraps(value)
  {
    LowerExactIff(value);
    LowerBrackets(value);
    if Wraps(value) {
      IndexParts(value);
      WrapsIffProductTooBig(value);
      WrappedProduct(Product(value));
      assert BucketLower(Index(value)) + TWO_64 / SUB <= ExactLower(Index(value));
    }
  }
}
