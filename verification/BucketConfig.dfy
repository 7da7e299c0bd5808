/** hdr_calculate_bucket_config.  The logarithms, which the source takes in floating point, are
    the exact integer ones. */
module BucketConfig {
  import opened Bits
  import opened BucketMath
  import opened Results

  /** power */
  method Power10(exp: nat) returns (result: nat)
    ensures result == Pow10(exp)
  {
    result := 1;
    var left: nat := exp;
    while left != 0
      invariant left <= exp && result >= 1 && result * Pow10(left) == Pow10(exp)
    {
      result, left := result * 10, left - 1;
    }
  }

  /** buckets_needed_to_cover_value.  The smallest untrackable value is doubled until it exceeds
      the value, but never past the end of int64. */
  method BucketsNeeded(value: Int64, halfMagnitude: nat, unitMagnitude: nat) returns (needed: nat)
    requires unitMagnitude + halfMagnitude <= 61
    ensures IsBucketCount(needed, value, halfMagnitude, unitMagnitude)
  {
    var um := unitMagnitude + halfMagnitude;
    Pow2Add(halfMagnitude + 1, unitMagnitude);
    var untrackable := Pow2(halfMagnitude + 1) * Pow2(unitMagnitude);
    needed := 1;
    Pow2Is62(um + 1);
    while untrackable <= value
      invariant needed >= 1 && untrackable == Pow2(um + needed) <= INT64_MAX
      invariant needed > 1 ==> Pow2(um + needed - 1) <= value
    {
      if untrackable > INT64_MAX / 2 {
        Pow2Beyond62(um + needed);
        return needed + 1;
      }
      untrackable, needed := untrackable * 2, needed + 1;
    }
  }

  lemma Pow2Squared(k: nat, p: nat)
    requires Pow2(k) == p
    ensures Pow2(2 * k) == p * p && Pow2(2 * k + 1) == 2 * (p * p)
  {
    Pow2Add(k, k);
  }

  lemma Pow2At62()
    ensures Pow2(62) == 0x4000_0000_0000_0000
  {
    Pow2Squared(3, 8);
    Pow2Squared(7, 128);
    Pow2Squared(15, 0x8000);
    Pow2Squared(31, 0x8000_0000);
  }

  /** An exponent of at most 62 gives an int64. */
  lemma Pow2Is62(k: nat)
    requires k <= 62
    ensures Pow2(k) <= INT64_MAX
  {
    Pow2At62();
    if k < 62 { Pow2Increasing(k, 62); }
  }

  /** The one power of two in the upper half of int64 is 2^62, and twice it covers every int64. */
  lemma Pow2Beyond62(k: nat)
    requires INT64_MAX / 2 < Pow2(k)
    ensures Pow2(k + 1) > INT64_MAX
  {
    Pow2At62();
    if k < 62 { Pow2Increasing(k, 62); }
  }

  /** The documented parameters are violated, or the slots of the first bucket do not fit into an
      int64. */
  predicate Refuses(lowest: int, highest: int, figures: int) {
    || lowest < 1 || figures < 1 || 5 < figures || 2 * lowest > highest
    || FloorLog2(lowest) + HalfMagnitudeFor(figures) > 61
  }

  /** hdr_calculate_bucket_config refuses exactly the parameters it documents, and otherwise
      returns a configuration whose slots cover the range at the promised resolution. */
  method CalculateBucketConfig(lowest: Int64, highest: Int64, figures: int) returns (r: Result<Config>)
    ensures r.Failure? <==> Refuses(lowest, highest, figures)
    ensures r.Failure? ==> r.error == EINVAL
    ensures r.Success? ==>
      && r.value.Valid()
      && r.value.lowest == lowest && r.value.highest == highest && r.value.figures == figures
  {
    if lowest < 1 || figures < 1 || 5 < figures || lowest * 2 > highest {
      return Failure(EINVAL);
    }
    var tens := Power10(figures);
    var magnitude := CeilLog2(2 * tens);
    var half := (if magnitude > 1 then magnitude else 1) - 1;
    var unit := FloorLog2(lowest);
    if unit + half > 61 {
      return Failure(EINVAL);
    }
    var buckets := BucketsNeeded(highest, half, unit);
    return Success(Config(lowest, highest, figures, unit, half, buckets, (buckets + 1) * Pow2(half)));
  }

  lemma BucketCountUnique(k: nat, l: nat, value: int, halfMagnitude: nat, unitMagnitude: nat)
    requires IsBucketCount(k, value, halfMagnitude, unitMagnitude)
    requires IsBucketCount(l, value, halfMagnitude, unitMagnitude)
    ensures k == l
  {
    RangeOfBuckets(k, l, value, halfMagnitude, unitMagnitude);
    RangeOfBuckets(l, k, value, halfMagnitude, unitMagnitude);
  }

  /** The configuration is determined by the three parameters. */
  lemma ConfigDetermined(c: Config, d: Config)
    requires c.Valid() && d.Valid()
    requires c.lowest == d.lowest && c.highest == d.highest && c.figures == d.figures
    ensures c == d
  {
    BucketCountUnique(c.bucketCount, d.bucketCount, c.highest, c.halfMagnitude, c.unitMagnitude);
  }

  /** The five resolutions: a bucket's upper half has 16, 128, 1024, 16384 or 131072 slots. */
  lemma MagnitudeTable(figures: nat)
    requires 1 <= figures <= 5
    ensures HalfMagnitudeFor(figures) == [4, 7, 10, 14, 17][figures - 1]
  {
    var k := [4, 7, 10, 14, 17][figures - 1];
    Pow2Add(4, 3);
    Pow2Add(7, 3);
    Pow2Add(10, 4);
    Pow2Add(14, 3);
    assert Pow10(figures) == [10, 100, 1000, 10000, 100000][figures - 1];
    BitLengthUnique(2 * Pow10(figures) - 1, k + 1);
  }

  /** The slots end at 2^63 at the latest. */
  lemma EndOfSlots(c: Config)
    requires c.Valid()
    ensures ValueAtIndex(c, c.countsLen) <= INT64_MAX + 1
  {
    Pow2At62();
    assert Pow2(63) == 2 * Pow2(62);
    SlotValuesFitInt64(c, c.countsLen, 63);
  }

  /** No slot starts at INT64_MAX: starts are even, or below the first bucket's end. */
  lemma SlotBelowMax(c: Config, i: nat)
    requires c.Valid() && i < c.countsLen
    ensures ValueAtIndex(c, i) < INT64_MAX
  {
    StartsBeforeEnd(c, i);
    EvenOrBelowHalf(c, i);
    EvenIsNotMax(ValueAtIndex(c, i));
  }

  lemma StartsBeforeEnd(c: Config, i: nat)
    requires c.Valid() && i < c.countsLen
    ensures ValueAtIndex(c, i) <= INT64_MAX
  {
    EndOfSlots(c);
    ValueAtIndexIncreasing(c, i, c.countsLen);
  }

  lemma EvenIsNotMax(value: nat)
    requires value <= INT64_MAX && (value % 2 == 0 || value < 0x4000_0000_0000_0000)
    ensures value < INT64_MAX
  {
  }

  lemma EvenOrBelowHalf(c: Config, i: nat)
    requires c.halfMagnitude <= 61
    ensures ValueAtIndex(c, i) % 2 == 0 || ValueAtIndex(c, i) < 0x4000_0000_0000_0000
  {
    Pow2At62();
    EvenOrSmall(c, i, 62);
  }

  lemma EvenOrSmall(c: Config, i: nat, top: nat)
    requires c.halfMagnitude < top
    ensures ValueAtIndex(c, i) % 2 == 0 || ValueAtIndex(c, i) < Pow2(top)
  {
    var bucket := Shr(i, c.halfMagnitude) - 1;
    var low := LowBits(i, c.halfMagnitude);
    LowBitsBelow(i, c.halfMagnitude);
    Pow2Increasing(c.halfMagnitude, top);
    if bucket < 0 {
      EvenOrExact(0, low, c.unitMagnitude);
    } else {
      EvenOrExact(bucket, low + c.HalfCount(), c.unitMagnitude);
    }
  }

  lemma LowBitsBelow(i: nat, k: nat)
    ensures LowBits(i, k) < Pow2(k)
  {
    ShiftSplit(i, k);
  }

  lemma EvenOrExact(bucket: nat, sub: nat, unitMagnitude: nat)
    ensures ValueFromIndex(bucket, sub, unitMagnitude) % 2 == 0 || ValueFromIndex(bucket, sub, unitMagnitude) == sub
  {
    var k := bucket + unitMagnitude;
    if k > 0 { MulAssoc(sub, 2, Pow2(k - 1)); }
  }

  lemma MaxStartsNoSlot(c: Config)
    requires c.halfMagnitude <= 61
    ensures LowestEquivalent(c, INT64_MAX) < INT64_MAX
  {
    SlotOfValue(c, INT64_MAX);
    EvenOrBelowHalf(c, CountsIndexFor(c, INT64_MAX));
  }
}
