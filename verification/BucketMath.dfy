/** The log-linear index map of src/hdr_histogram.c: which slot of the counts array a value
    falls into, which values share a slot, and how many slots a configuration needs. */
module BucketMath {
  import opened Bits

  /** struct hdr_histogram_bucket_config.  The sub-bucket counts and the mask, which the source
      stores as further fields, are functions of halfMagnitude and unitMagnitude. */
  datatype Config = Config(
    lowest: int,            // lowest_discernible_value
    highest: int,           // highest_trackable_value
    figures: int,           // significant_figures
    unitMagnitude: nat,
    halfMagnitude: nat,     // sub_bucket_half_count_magnitude
    bucketCount: nat,
    countsLen: nat)
  {
    function HalfCount(): nat { Pow2(halfMagnitude) }
    function SubBucketCount(): nat { Pow2(halfMagnitude + 1) }
    function SubBucketMask(): nat { (SubBucketCount() - 1) * Pow2(unitMagnitude) }

    /** The number of low bits a value of bucket 0 may have. */
    function BaseBits(): nat { unitMagnitude + halfMagnitude + 1 }

    /** The configurations hdr_calculate_bucket_config hands out. */
    predicate Valid() {
      && 2 * lowest <= highest <= INT64_MAX
      && Resolves()
      && Sized()
    }

    /** The magnitudes are those of the lowest discernible value and the significant figures. */
    predicate Resolves() {
      && 1 <= figures <= 5
      && 1 <= lowest
      && unitMagnitude == FloorLog2(lowest)
      && halfMagnitude == HalfMagnitudeFor(figures)
      && unitMagnitude + halfMagnitude <= 61
    }

    /** There are as many slots as the trackable range needs. */
    predicate Sized() {
      && 0 <= highest
      && IsBucketCount(bucketCount, highest, halfMagnitude, unitMagnitude)
      && countsLen == (bucketCount + 1) * HalfCount()
    }
  }

  /** floor(log2(n)). */
  function FloorLog2(n: int): nat
    requires n >= 1
  {
    BitLengthBounds(n);
    BitLength(n) - 1
  }

  /** ceil(log2(n)). */
  function CeilLog2(n: int): nat
    requires n >= 1
  {
    BitLength(n - 1)
  }

  /** They are the logarithms to base 2, rounded down and up. */
  lemma Logarithms(n: nat)
    requires n >= 1
    ensures Pow2(FloorLog2(n)) <= n < 2 * Pow2(FloorLog2(n))
    ensures n <= Pow2(CeilLog2(n)) && (CeilLog2(n) > 0 ==> Pow2(CeilLog2(n) - 1) < n)
  {
    BitLengthBounds(n);
    BitLengthBounds(n - 1);
  }

  /** One less than the number of bits needed to resolve 2 * 10^figures single units. */
  function HalfMagnitudeFor(figures: int): nat
    requires 0 <= figures
  {
    var magnitude := CeilLog2(2 * Pow10(figures));
    (if magnitude > 1 then magnitude else 1) - 1
  }

  /** k is the least positive number of buckets whose range exceeds value. */
  predicate IsBucketCount(k: nat, value: int, halfMagnitude: nat, unitMagnitude: nat) {
    && k >= 1
    && value < Pow2(unitMagnitude + halfMagnitude + k)
    && (k > 1 ==> Pow2(unitMagnitude + halfMagnitude + k - 1) <= value)
  }

  // ---------- the index map ----------

  lemma MaskLength(c: Config)
    ensures BitLength(c.SubBucketMask()) == c.BaseBits()
  {
    var u, m := c.unitMagnitude, c.halfMagnitude;
    Pow2Add(m + 1, u);
    Pow2Add(m, u);
    Successor(c.SubBucketCount() - 1, Pow2(u));
    MulMonotone(1, Pow2(m), Pow2(u));
    BitLengthUnique(c.SubBucketMask(), c.BaseBits());
  }

  /** get_bucket_index */
  function BucketIndex(c: Config, value: nat): nat {
    MaskLength(c);
    BitLengthOr(value, c.SubBucketMask());
    BitLength(BitOr(value, c.SubBucketMask())) - c.unitMagnitude - (c.halfMagnitude + 1)
  }

  /** get_sub_bucket_index */
  function SubBucketIndex(value: nat, bucket: nat, unitMagnitude: nat): nat {
    Shr(value, bucket + unitMagnitude)
  }

  /** counts_index */
  function CountsIndex(c: Config, bucket: nat, sub: nat): int {
    (bucket + 1) * c.HalfCount() + (sub - c.HalfCount())
  }

  /** value_from_index */
  function ValueFromIndex(bucket: nat, sub: nat, unitMagnitude: nat): nat {
    sub * Pow2(bucket + unitMagnitude)
  }

  /** counts_index_for */
  function CountsIndexFor(c: Config, value: nat): (i: nat) {
    var bucket := BucketIndex(c, value);
    IndexOfParts(c, bucket, SubBucketIndex(value, bucket, c.unitMagnitude));
    CountsIndex(c, bucket, SubBucketIndex(value, bucket, c.unitMagnitude))
  }

  /** hdr_value_at_index */
  function ValueAtIndex(c: Config, index: nat): nat {
    var bucket := Shr(index, c.halfMagnitude) - 1;
    var sub := LowBits(index, c.halfMagnitude) + c.HalfCount();
    if bucket < 0
    then ValueFromIndex(0, sub - c.HalfCount(), c.unitMagnitude)
    else ValueFromIndex(bucket, sub, c.unitMagnitude)
  }

  /** hdr_size_of_equivalent_value_range */
  function SizeOfEquivalentRange(c: Config, value: nat): nat {
    var bucket := BucketIndex(c, value);
    var sub := SubBucketIndex(value, bucket, c.unitMagnitude);
    Pow2(c.unitMagnitude + (if sub >= c.SubBucketCount() then bucket + 1 else bucket))
  }

  /** lowest_equivalent_value */
  function LowestEquivalent(c: Config, value: nat): nat {
    var bucket := BucketIndex(c, value);
    ValueFromIndex(bucket, SubBucketIndex(value, bucket, c.unitMagnitude), c.unitMagnitude)
  }

  /** hdr_next_non_equivalent_value */
  function NextNonEquivalent(c: Config, value: nat): nat {
    LowestEquivalent(c, value) + SizeOfEquivalentRange(c, value)
  }

  /** highest_equivalent_value */
  function HighestEquivalent(c: Config, value: nat): nat {
    NextNonEquivalent(c, value) - 1
  }

  /** A bucket and sub-bucket that address a slot: the lower half of every bucket but the first
      repeats the bucket before it and is never used. */
  predicate Addresses(c: Config, bucket: nat, sub: nat) {
    sub < c.SubBucketCount() && (bucket > 0 ==> c.HalfCount() <= sub)
  }

  predicate InSlot(c: Config, value: nat, bucket: nat, sub: nat) {
    && Addresses(c, bucket, sub)
    && sub * Pow2(bucket + c.unitMagnitude) <= value < (sub + 1) * Pow2(bucket + c.unitMagnitude)
  }

  lemma IndexOfParts(c: Config, bucket: nat, sub: nat)
    ensures CountsIndex(c, bucket, sub) == bucket * c.HalfCount() + sub >= 0
  {
  }

  lemma BucketIndexCases(c: Config, value: nat)
    ensures value < Pow2(c.BaseBits()) ==> BucketIndex(c, value) == 0
    ensures Pow2(c.BaseBits()) <= value ==>
      BitLength(value) > c.BaseBits() && BucketIndex(c, value) == BitLength(value) - c.BaseBits()
  {
    MaskLength(c);
    BitLengthOr(value, c.SubBucketMask());
    BitLengthBounds(value);
    var len := BitLength(value);
    if value < Pow2(c.BaseBits()) {
      if c.BaseBits() < len {
        if c.BaseBits() < len - 1 { Pow2Increasing(c.BaseBits(), len - 1); }
      }
    } else if len < c.BaseBits() {
      Pow2Increasing(len, c.BaseBits());
    }
  }

  /** Every value lies in the slot that the index computation names. */
  lemma Locate(c: Config, value: nat)
    ensures InSlot(c, value, BucketIndex(c, value), SubBucketIndex(value, BucketIndex(c, value), c.unitMagnitude))
  {
    var bucket := BucketIndex(c, value);
    var k := bucket + c.unitMagnitude;
    LocateBucket(c, value);
    ShiftSplit(value, k);
    Successor(Shr(value, k), Pow2(k));
    ShiftBounds(value, k, if bucket == 0 then 0 else c.HalfCount(), c.SubBucketCount());
  }

  lemma LocateBucket(c: Config, value: nat)
    ensures value < c.SubBucketCount() * Pow2(BucketIndex(c, value) + c.unitMagnitude)
    ensures BucketIndex(c, value) > 0 ==> c.HalfCount() * Pow2(BucketIndex(c, value) + c.unitMagnitude) <= value
  {
    var k := BucketIndex(c, value) + c.unitMagnitude;
    BucketIndexCases(c, value);
    Pow2Add(c.halfMagnitude + 1, k);
    if Pow2(c.BaseBits()) <= value {
      BitLengthBounds(value);
      Pow2Add(c.halfMagnitude, k);
    }
  }

  /** ... and in no other. */
  lemma LocateUnique(c: Config, value: nat, bucket: nat, sub: nat)
    requires InSlot(c, value, bucket, sub)
    ensures BucketIndex(c, value) == bucket
    ensures SubBucketIndex(value, bucket, c.unitMagnitude) == sub
  {
    var k := bucket + c.unitMagnitude;
    UniqueBucket(c, value, bucket, sub);
    Successor(sub, Pow2(k));
    ShiftUnique(value, k, sub, value - sub * Pow2(k));
  }

  lemma UniqueBucket(c: Config, value: nat, bucket: nat, sub: nat)
    requires InSlot(c, value, bucket, sub)
    ensures BucketIndex(c, value) == bucket
  {
    var k := bucket + c.unitMagnitude;
    BucketIndexCases(c, value);
    MulMonotone(sub + 1, c.SubBucketCount(), Pow2(k));
    Pow2Add(c.halfMagnitude + 1, k);
    if bucket > 0 {
      MulMonotone(c.HalfCount(), sub, Pow2(k));
      Pow2Add(c.halfMagnitude, k);
      BitLengthUnique(value, bucket + c.BaseBits());
      if bucket > 1 { Pow2Increasing(c.BaseBits(), bucket + c.BaseBits() - 1); }
    }
  }

  lemma ValueOfParts(c: Config, bucket: nat, sub: nat)
    requires Addresses(c, bucket, sub)
    ensures ValueAtIndex(c, bucket * c.HalfCount() + sub) == ValueFromIndex(bucket, sub, c.unitMagnitude)
  {
    var half, i := c.HalfCount(), bucket * c.HalfCount() + sub;
    if sub < half {
      ShiftUnique(i, c.halfMagnitude, 0, sub);
    } else {
      Successor(bucket, half);
      ShiftUnique(i, c.halfMagnitude, bucket + 1, sub - half);
    }
  }

  /** Every index is addressed by exactly the parts that hdr_value_at_index takes it apart into. */
  lemma PartsOfIndex(c: Config, index: nat) returns (bucket: nat, sub: nat)
    ensures Addresses(c, bucket, sub)
    ensures index == bucket * c.HalfCount() + sub
    ensures ValueAtIndex(c, index) == ValueFromIndex(bucket, sub, c.unitMagnitude)
  {
    var q, r := Shr(index, c.halfMagnitude), LowBits(index, c.halfMagnitude);
    ShiftSplit(index, c.halfMagnitude);
    if q == 0 {
      bucket, sub := 0, r;
    } else {
      bucket, sub := q - 1, r + c.HalfCount();
      Successor(bucket, c.HalfCount());
    }
  }

  /** The value at an index starts the slot of that index. */
  lemma IndexOfValueAtIndex(c: Config, index: nat)
    ensures CountsIndexFor(c, ValueAtIndex(c, index)) == index
    ensures LowestEquivalent(c, ValueAtIndex(c, index)) == ValueAtIndex(c, index)
  {
    var bucket, sub := PartsOfIndex(c, index);
    var width := Pow2(bucket + c.unitMagnitude);
    Successor(sub, width);
    assert ValueAtIndex(c, index) == sub * width;
    LocateUnique(c, ValueAtIndex(c, index), bucket, sub);
    IndexOfParts(c, bucket, sub);
  }

  /** The slot of index+1 starts where the slot of index ends. */
  lemma NextSlotStart(c: Config, bucket: nat, sub: nat)
    requires Addresses(c, bucket, sub)
    ensures ValueAtIndex(c, bucket * c.HalfCount() + sub + 1) == (sub + 1) * Pow2(bucket + c.unitMagnitude)
  {
    var half := c.HalfCount();
    if sub + 1 < c.SubBucketCount() {
      ValueOfParts(c, bucket, sub + 1);
    } else {
      assert bucket * half + sub + 1 == (bucket + 1) * half + half;
      ValueOfParts(c, bucket + 1, half);
      assert half * Pow2(bucket + 1 + c.unitMagnitude) == (2 * half) * Pow2(bucket + c.unitMagnitude);
    }
  }

  /** The slots partition the values: the slot of a value starts at its lowest equivalent, the
      next slot starts at its next non-equivalent value, and the value lies between. */
  lemma SlotOfValue(c: Config, value: nat)
    ensures ValueAtIndex(c, CountsIndexFor(c, value)) == LowestEquivalent(c, value)
    ensures ValueAtIndex(c, CountsIndexFor(c, value) + 1) == NextNonEquivalent(c, value)
    ensures LowestEquivalent(c, value) <= value <= HighestEquivalent(c, value)
  {
    var bucket := BucketIndex(c, value);
    var sub := SubBucketIndex(value, bucket, c.unitMagnitude);
    Locate(c, value);
    SlotOfParts(c, bucket, sub);
    Successor(sub, Pow2(bucket + c.unitMagnitude));
  }

  lemma SlotOfParts(c: Config, bucket: nat, sub: nat)
    requires Addresses(c, bucket, sub)
    ensures CountsIndex(c, bucket, sub) >= 0
    ensures ValueAtIndex(c, CountsIndex(c, bucket, sub)) == ValueFromIndex(bucket, sub, c.unitMagnitude)
    ensures ValueAtIndex(c, CountsIndex(c, bucket, sub) + 1) == (sub + 1) * Pow2(bucket + c.unitMagnitude)
  {
    IndexOfParts(c, bucket, sub);
    ValueOfParts(c, bucket, sub);
    NextSlotStart(c, bucket, sub);
  }

  lemma NextSlotIsHigher(c: Config, index: nat)
    ensures ValueAtIndex(c, index) < ValueAtIndex(c, index + 1)
  {
    IndexOfValueAtIndex(c, index);
    SlotOfValue(c, ValueAtIndex(c, index));
  }

  lemma {:induction false} ValueAtIndexIncreasing(c: Config, i: nat, j: nat)
    requires i < j
    ensures ValueAtIndex(c, i) < ValueAtIndex(c, j)
  {
    NextSlotIsHigher(c, j - 1);
    if i < j - 1 {
      ValueAtIndexIncreasing(c, i, j - 1);
    }
  }

  /** The order of slots is the order of values. */
  lemma IndexBelowIff(c: Config, value: nat, index: nat)
    ensures CountsIndexFor(c, value) < index <==> value < ValueAtIndex(c, index)
  {
    var i := CountsIndexFor(c, value);
    SlotOfValue(c, value);
    if i < index {
      if i + 1 < index { ValueAtIndexIncreasing(c, i + 1, index); }
    } else if index < i {
      ValueAtIndexIncreasing(c, index, i);
    }
  }

  lemma IndexMonotone(c: Config, v: nat, w: nat)
    requires v <= w
    ensures CountsIndexFor(c, v) <= CountsIndexFor(c, w)
  {
    IndexBelowIff(c, w, CountsIndexFor(c, v));
    SlotOfValue(c, v);
  }

  /** Values of at least one unit lie past slot 0. */
  lemma FirstSlotPassed(c: Config, level: nat)
    requires Pow2(c.unitMagnitude) <= level
    ensures CountsIndexFor(c, level) > 0
  {
    ValueOfParts(c, 0, 1);
    IndexBelowIff(c, level, 1);
  }

  /** hdr_values_are_equivalent holds exactly of values that share a slot. */
  lemma EquivalentIffSameIndex(c: Config, v: nat, w: nat)
    ensures LowestEquivalent(c, v) == LowestEquivalent(c, w) <==> CountsIndexFor(c, v) == CountsIndexFor(c, w)
  {
    SlotOfValue(c, v);
    SlotOfValue(c, w);
    IndexOfValueAtIndex(c, CountsIndexFor(c, v));
    IndexOfValueAtIndex(c, CountsIndexFor(c, w));
  }

  lemma {:induction false} ShiftDivides(value: nat, k: nat)
    ensures Shr(value, k) == value / Pow2(k)
  {
    if k > 0 {
      ShiftDivides(value / 2, k - 1);
      DivideTwice(value, 2, Pow2(k - 1));
    }
  }

  /** The index by the size of the value alone: up to twice the number of half-bucket slots every unit
      has a slot of its own, and from each power of two to the next there are half as many slots,
      twice as wide as before. */
  lemma IndexFormula(c: Config, value: nat)
    ensures value < Pow2(c.BaseBits()) ==> CountsIndexFor(c, value) == value / Pow2(c.unitMagnitude)
    ensures value >= Pow2(c.BaseBits()) ==>
      var e := BitLength(value) - c.BaseBits();
      && e > 0 && Pow2(c.BaseBits() + e - 1) <= value < Pow2(c.BaseBits() + e)
      && CountsIndexFor(c, value) == e * Pow2(c.halfMagnitude) + value / Pow2(c.unitMagnitude + e)
  {
    if value < Pow2(c.BaseBits()) {
      BucketIndexCases(c, value);
      IndexInBucket(c, value, 0);
    } else {
      SizeOfLarge(c, value);
      IndexInBucket(c, value, BitLength(value) - c.BaseBits());
    }
  }

  lemma SizeOfLarge(c: Config, value: nat)
    requires value >= Pow2(c.BaseBits())
    ensures var e := BitLength(value) - c.BaseBits();
      e > 0 && Pow2(c.BaseBits() + e - 1) <= value < Pow2(c.BaseBits() + e) && BucketIndex(c, value) == e
  {
    BucketIndexCases(c, value);
    BitLengthBounds(value);
  }

  lemma IndexInBucket(c: Config, value: nat, bucket: nat)
    requires BucketIndex(c, value) == bucket
    ensures CountsIndexFor(c, value) == bucket * Pow2(c.halfMagnitude) + value / Pow2(c.unitMagnitude + bucket)
  {
    ShiftDivides(value, bucket + c.unitMagnitude);
    IndexOfParts(c, bucket, SubBucketIndex(value, bucket, c.unitMagnitude));
  }

  lemma HighestEquivalentOfStart(c: Config, value: nat)
    ensures HighestEquivalent(c, LowestEquivalent(c, value)) == HighestEquivalent(c, value)
    ensures CountsIndexFor(c, HighestEquivalent(c, value)) == CountsIndexFor(c, value)
  {
    var i := CountsIndexFor(c, value);
    SlotOfValue(c, value);
    IndexOfValueAtIndex(c, i);
    SlotOfValue(c, LowestEquivalent(c, value));
    IndexBelowIff(c, HighestEquivalent(c, value), i + 1);
    IndexBelowIff(c, HighestEquivalent(c, value), i);
  }

  // ---------- precision ----------

  lemma CeilLog2Bounds(n: int)
    requires n >= 2
    ensures CeilLog2(n) >= 1 && n <= Pow2(CeilLog2(n)) == 2 * Pow2(CeilLog2(n) - 1)
  {
    BitLengthBounds(n - 1);
  }

  lemma TenToFiguresFits(figures: nat)
    ensures Pow10(figures) <= Pow2(HalfMagnitudeFor(figures))
  {
    CeilLog2Bounds(2 * Pow10(figures));
  }

  /** What "significant figures" promises: any value reported for a slot in place of one recorded
      there is off by less than one unit in bucket 0, and otherwise by less than one part in
      10^figures. */
  lemma Precision(c: Config, value: nat)
    requires c.Resolves()
    ensures value <= HighestEquivalent(c, value)
    ensures BucketIndex(c, value) == 0 ==> HighestEquivalent(c, value) - value < Pow2(c.unitMagnitude)
    ensures BucketIndex(c, value) > 0 ==> (HighestEquivalent(c, value) - value) * Pow10(c.figures) < value
  {
    TenToFiguresFits(c.figures);
    PrecisionFor(c, value, Pow10(c.figures));
  }

  lemma PrecisionFor(c: Config, value: nat, tens: nat)
    requires 0 < tens <= c.HalfCount()
    ensures value <= HighestEquivalent(c, value)
    ensures BucketIndex(c, value) == 0 ==> HighestEquivalent(c, value) - value < Pow2(c.unitMagnitude)
    ensures BucketIndex(c, value) > 0 ==> (HighestEquivalent(c, value) - value) * tens < value
  {
    var bucket := BucketIndex(c, value);
    var sub := SubBucketIndex(value, bucket, c.unitMagnitude);
    var width := Pow2(bucket + c.unitMagnitude);
    Locate(c, value);
    SlotOfValue(c, value);
    if bucket > 0 {
      MulMonotone(c.HalfCount(), sub, width);
      RelativeError(HighestEquivalent(c, value) - value, width, tens, c.HalfCount(), value);
    }
  }

  lemma RelativeError(error: nat, width: nat, tens: nat, half: nat, value: nat)
    requires error < width && 0 < tens <= half && half * width <= value
    ensures error * tens < value
  {
    MulMonotone(error + 1, width, tens);
    MulMonotone(tens, half, width);
  }

  // ---------- how many buckets ----------

  lemma StartOfBucket(c: Config, k: nat)
    ensures ValueAtIndex(c, (k + 1) * c.HalfCount()) == Pow2(c.unitMagnitude + c.halfMagnitude + k)
  {
    assert (k + 1) * c.HalfCount() == k * c.HalfCount() + c.HalfCount();
    ValueOfParts(c, k, c.HalfCount());
    Pow2Add(c.halfMagnitude, k + c.unitMagnitude);
  }

  /** The slots of the first k buckets include the slot of value. */
  predicate Covers(c: Config, k: nat, value: nat) {
    CountsIndexFor(c, value) < (k + 1) * c.HalfCount()
  }

  lemma CoversIff(c: Config, k: nat, value: nat)
    ensures Covers(c, k, value) <==> value < Pow2(c.unitMagnitude + c.halfMagnitude + k)
  {
    StartOfBucket(c, k);
    IndexBelowIff(c, value, (k + 1) * c.HalfCount());
  }

  lemma RangeOfBuckets(k: nat, least: nat, value: int, halfMagnitude: nat, unitMagnitude: nat)
    requires k >= 1 && IsBucketCount(least, value, halfMagnitude, unitMagnitude)
    ensures value < Pow2(unitMagnitude + halfMagnitude + k) <==> least <= k
  {
    var um := unitMagnitude + halfMagnitude;
    if least < k {
      Pow2Increasing(um + least, um + k);
    } else if k < least - 1 {
      Pow2Increasing(um + k, um + least - 1);
    }
  }

  /** No value the histogram accepts falls outside the counts array. */
  lemma InRangeHasSlot(c: Config, value: nat)
    requires c.Sized() && value <= c.highest
    ensures CountsIndexFor(c, value) < c.countsLen
  {
    CoversIff(c, c.bucketCount, value);
  }

  /** A number of buckets covers the trackable range exactly when it is at least bucketCount. */
  lemma BucketCountIsLeast(c: Config, k: nat)
    requires c.Sized() && k >= 1
    ensures (forall v: nat | v <= c.highest :: Covers(c, k, v)) <==> c.bucketCount <= k
  {
    RangeOfBuckets(k, c.bucketCount, c.highest, c.halfMagnitude, c.unitMagnitude);
    CoversIff(c, k, c.highest);
    if Covers(c, k, c.highest) {
      forall v: nat | v <= c.highest ensures Covers(c, k, v) {
        CoversIff(c, k, v);
      }
    }
  }

  /** With a trackable range below 2^62 even the start of the slot past the end, which the
      iterators look at, is an int64; so is then every value computed for a slot. */
  lemma SlotValuesFitInt64(c: Config, index: nat, bits: nat)
    requires c.Sized() && c.unitMagnitude + c.halfMagnitude < bits && c.highest < Pow2(bits)
    requires index <= c.countsLen
    ensures ValueAtIndex(c, index) <= Pow2(bits)
  {
    StartOfBucket(c, c.bucketCount);
    if index < c.countsLen { ValueAtIndexIncreasing(c, index, c.countsLen); }
    SmallTop(c.unitMagnitude + c.halfMagnitude, c.bucketCount, c.highest, bits);
  }

  lemma SmallTop(um: nat, k: nat, value: int, bits: nat)
    requires um < bits && k >= 1 && value < Pow2(bits)
    requires k > 1 ==> Pow2(um + k - 1) <= value
    ensures Pow2(um + k) <= Pow2(bits)
  {
    if bits < um + k - 1 {
      Pow2Increasing(bits, um + k - 1);
    } else if um + k < bits {
      Pow2Increasing(um + k, bits);
    }
  }
}
