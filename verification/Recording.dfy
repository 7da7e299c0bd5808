/** Recording as a function on the contents of a histogram, and what the contents mean after any
    run of records.  The methods of class Histogram are proved against these functions. */
module Recording {
  import opened Bits
  import opened BucketMath
  import opened BucketConfig

  /** One call of hdr_record_values. */
  datatype Record = Record(value: int, count: int)

  /** The mutable fields of struct hdr_histogram. */
  datatype State = State(counts: seq<int>, total: int, min: int, max: int)

  /** hdr_init_preallocated and hdr_reset */
  function EmptyState(c: Config): State {
    State(seq(c.countsLen, _ => 0), 0, INT64_MAX, 0)
  }

  /** The checks at the head of hdr_record_values. */
  predicate Accepts(c: Config, value: int) {
    0 <= value <= c.highest && CountsIndexFor(c, value) < c.countsLen
  }

  /** No in-range value is rejected. */
  lemma AcceptsIffInRange(c: Config, value: int)
    requires c.Sized()
    ensures Accepts(c, value) <==> 0 <= value <= c.highest
  {
    if 0 <= value <= c.highest { InRangeHasSlot(c, value); }
  }

  function NewMin(min: int, value: int): int {
    if value != 0 && value < min then value else min
  }

  function NewMax(max: int, value: int): int {
    if value > max then value else max
  }

  /** The contents after hdr_record_values(h, r.value, r.count). */
  function Recorded(c: Config, s: State, r: Record): (s': State)
    requires |s.counts| == c.countsLen
    ensures |s'.counts| == c.countsLen
  {
    if !Accepts(c, r.value) then s
    else
      var i := CountsIndexFor(c, r.value);
      State(s.counts[i := s.counts[i] + r.count], s.total + r.count, NewMin(s.min, r.value), NewMax(s.max, r.value))
  }

  function RecordedAll(c: Config, s: State, rs: seq<Record>): (s': State)
    requires |s.counts| == c.countsLen
    ensures |s'.counts| == c.countsLen
  {
    if rs == [] then s else Recorded(c, RecordedAll(c, s, rs[..|rs| - 1]), rs[|rs| - 1])
  }

  lemma {:induction false} RecordedAllConcat(c: Config, s: State, rs: seq<Record>, qs: seq<Record>)
    requires |s.counts| == c.countsLen
    ensures RecordedAll(c, s, rs + qs) == RecordedAll(c, RecordedAll(c, s, rs), qs)
  {
    if qs == [] {
      assert rs + qs == rs;
    } else {
      var n := |qs| - 1;
      assert (rs + qs)[..|rs + qs| - 1] == rs + qs[..n];
      RecordedAllConcat(c, s, rs, qs[..n]);
    }
  }

  // ---------- sums of slots ----------

  /** The sum of the first n counts. */
  function Prefix(counts: seq<int>, n: nat): int
    requires n <= |counts|
  {
    if n == 0 then 0 else Prefix(counts, n - 1) + counts[n - 1]
  }

  function Sum(counts: seq<int>): int {
    Prefix(counts, |counts|)
  }

  lemma {:induction false} PrefixUpdate(counts: seq<int>, i: nat, count: int, n: nat)
    requires i < |counts| && n <= |counts|
    ensures Prefix(counts[i := counts[i] + count], n) == Prefix(counts, n) + if i < n then count else 0
  {
    if n != 0 { PrefixUpdate(counts, i, count, n - 1); }
  }

  ghost predicate NonNegative(counts: seq<int>) {
    forall i | 0 <= i < |counts| :: counts[i] >= 0
  }

  lemma {:induction false} PrefixMonotone(counts: seq<int>, m: nat, n: nat)
    requires m <= n <= |counts| && NonNegative(counts)
    ensures 0 <= Prefix(counts, m) <= Prefix(counts, n)
  {
    if n != 0 {
      if m < n { PrefixMonotone(counts, m, n - 1); } else { PrefixMonotone(counts, n - 1, n - 1); }
    }
  }

  lemma {:induction false} PrefixOfZeros(counts: seq<int>, m: nat, n: nat)
    requires m <= n <= |counts| && forall i | m <= i < n :: counts[i] == 0
    ensures Prefix(counts, n) == Prefix(counts, m)
  {
    if m < n { PrefixOfZeros(counts, m, n - 1); }
  }

  // ---------- what a run of records leaves behind ----------

  /** The counts of all accepted records that fall into slot i. */
  function SlotSum(c: Config, rs: seq<Record>, i: int): int {
    if rs == [] then 0
    else
      var r := rs[|rs| - 1];
      SlotSum(c, rs[..|rs| - 1], i) + if Accepts(c, r.value) && CountsIndexFor(c, r.value) == i then r.count else 0
  }

  function TotalSum(c: Config, rs: seq<Record>): int {
    if rs == [] then 0
    else
      var r := rs[|rs| - 1];
      TotalSum(c, rs[..|rs| - 1]) + if Accepts(c, r.value) then r.count else 0
  }

  /** max is the greatest accepted value, or 0 when there is none. */
  ghost predicate IsGreatest(c: Config, rs: seq<Record>, max: int) {
    && max >= 0
    && (forall r | r in rs && Accepts(c, r.value) :: r.value <= max)
    && (max > 0 ==> exists r :: r in rs && Accepts(c, r.value) && r.value == max)
  }

  /** min is the least accepted value other than 0, or INT64_MAX when there is none. */
  ghost predicate IsLeastNonZero(c: Config, rs: seq<Record>, min: int) {
    && 0 < min <= INT64_MAX
    && (forall r | r in rs && Accepts(c, r.value) :: r.value == 0 || min <= r.value)
    && (min < INT64_MAX ==> exists r :: r in rs && Accepts(c, r.value) && r.value == min)
  }

  ghost predicate IsSummary(c: Config, rs: seq<Record>, s: State) {
    && |s.counts| == c.countsLen
    && (forall i | 0 <= i < c.countsLen :: s.counts[i] == SlotSum(c, rs, i))
    && s.total == TotalSum(c, rs)
    && IsGreatest(c, rs, s.max)
    && IsLeastNonZero(c, rs, s.min)
  }

  /** After any run of records every slot holds the counts of the values that belong there, the
      total is their sum, and min and max are the extreme values recorded. */
  lemma {:induction false} RunMeaning(c: Config, rs: seq<Record>)
    requires c.highest <= INT64_MAX
    ensures IsSummary(c, rs, RecordedAll(c, EmptyState(c), rs))
  {
    if rs != [] {
      RunMeaning(c, rs[..|rs| - 1]);
      SummaryStep(c, rs, RecordedAll(c, EmptyState(c), rs[..|rs| - 1]));
    }
  }

  lemma SummaryStep(c: Config, rs: seq<Record>, s: State)
    requires c.highest <= INT64_MAX && rs != [] && IsSummary(c, rs[..|rs| - 1], s)
    ensures IsSummary(c, rs, Recorded(c, s, rs[|rs| - 1]))
  {
    GreatestStep(c, rs, s.max);
    LeastStep(c, rs, s.min);
  }

  lemma GreatestStep(c: Config, rs: seq<Record>, max: int)
    requires rs != [] && IsGreatest(c, rs[..|rs| - 1], max)
    ensures IsGreatest(c, rs, if Accepts(c, rs[|rs| - 1].value) then NewMax(max, rs[|rs| - 1].value) else max)
  {
    var q, r := rs[..|rs| - 1], rs[|rs| - 1];
    assert forall x :: x in rs <==> x in q || x == r by { assert rs == q + [r]; }
  }

  lemma LeastStep(c: Config, rs: seq<Record>, min: int)
    requires c.highest <= INT64_MAX && rs != [] && IsLeastNonZero(c, rs[..|rs| - 1], min)
    ensures IsLeastNonZero(c, rs, if Accepts(c, rs[|rs| - 1].value) then NewMin(min, rs[|rs| - 1].value) else min)
  {
    var q, r := rs[..|rs| - 1], rs[|rs| - 1];
    assert forall x :: x in rs <==> x in q || x == r by { assert rs == q + [r]; }
  }

  /** The summary of a run is unique: contents that satisfy it are those the run leaves behind. */
  lemma SummaryDetermines(c: Config, rs: seq<Record>, s: State)
    requires c.highest <= INT64_MAX && IsSummary(c, rs, s)
    ensures s == RecordedAll(c, EmptyState(c), rs)
  {
    RunMeaning(c, rs);
    var t := RecordedAll(c, EmptyState(c), rs);
    assert s.counts == t.counts;
    assert s.max == t.max;
    assert s.min == t.min;
  }

  // ---------- consistency ----------

  /** What any run of records keeps, records of count 0 included: no slot above that of max or
      below that of min is in use, except slot 0. */
  ghost predicate Bounded(c: Config, s: State) {
    && |s.counts| == c.countsLen
    && NonNegative(s.counts)
    && s.total == Sum(s.counts)
    && MaxBounds(c, s)
    && MinBounds(c, s)
  }

  ghost predicate MaxBounds(c: Config, s: State) {
    && s.max >= 0
    && CountsIndexFor(c, s.max) < |s.counts|
    && (forall i | CountsIndexFor(c, s.max) < i < |s.counts| :: s.counts[i] == 0)
  }

  /** A minimum of INT64_MAX, which stands for none, is in the last slot if it has one. */
  ghost predicate MinBounds(c: Config, s: State) {
    && 0 < s.min <= INT64_MAX
    && (s.min < INT64_MAX ==> CountsIndexFor(c, s.min) < |s.counts|)
    && ZerosBelow(s.counts, FirstInUse(c, |s.counts|, s.min))
  }

  /** The slot of a minimum, or the end when it has none. */
  function FirstInUse(c: Config, n: nat, min: nat): (i: nat)
    ensures i <= n
  {
    if CountsIndexFor(c, min) < n then CountsIndexFor(c, min) else n
  }

  /** The slots from 1 up to k hold nothing. */
  ghost predicate ZerosBelow(counts: seq<int>, k: nat)
    requires k <= |counts|
  {
    forall i | 0 < i < k :: counts[i] == 0
  }

  /** What records of positive counts, adding and hdr_reset_internal_counters keep: the slots of
      the extremes are in use as well. */
  ghost predicate Consistent(c: Config, s: State) {
    Bounded(c, s) && InUse(c, s)
  }

  ghost predicate InUse(c: Config, s: State)
    requires Bounded(c, s)
  {
    && (s.max > 0 ==> s.counts[CountsIndexFor(c, s.max)] > 0)
    && (s.min < INT64_MAX ==> s.counts[CountsIndexFor(c, s.min)] > 0)
  }

  /** Only slots whose values may be recorded are in use. */
  ghost predicate WithinRange(c: Config, s: State) {
    forall i | 0 <= i < |s.counts| :: s.counts[i] > 0 ==> ValueAtIndex(c, i) <= c.highest
  }

  lemma ZeroHasFirstSlot(c: Config)
    ensures ValueAtIndex(c, 0) == 0 && CountsIndexFor(c, 0) == 0
  {
    ValueOfParts(c, 0, 0);
    IndexOfValueAtIndex(c, 0);
  }

  lemma {:induction false} SumOfZeros(n: nat, len: nat)
    requires n <= len
    ensures Prefix(seq(len, _ => 0), n) == 0
  {
    if n != 0 { SumOfZeros(n - 1, len); }
  }

  lemma EmptyIsConsistent(c: Config)
    requires c.Sized()
    ensures Consistent(c, EmptyState(c)) && WithinRange(c, EmptyState(c))
  {
    ZeroHasFirstSlot(c);
    InRangeHasSlot(c, 0);
    SumOfZeros(c.countsLen, c.countsLen);
  }

  lemma SumStep(counts: seq<int>, i: nat, count: nat)
    requires i < |counts| && NonNegative(counts)
    ensures var counts' := counts[i := counts[i] + count]; NonNegative(counts') && Sum(counts') == Sum(counts) + count
  {
    PrefixUpdate(counts, i, count, |counts|);
  }

  lemma RangeStep(c: Config, s: State, r: Record)
    requires |s.counts| == c.countsLen && WithinRange(c, s) && Accepts(c, r.value)
    ensures WithinRange(c, Recorded(c, s, r))
  {
    SlotOfValue(c, r.value);
  }

  lemma ZerosKept(counts: seq<int>, i: nat, count: int, k: nat)
    requires i < |counts| && k <= |counts| && ZerosBelow(counts, k) && (i == 0 || k <= i)
    ensures ZerosBelow(counts[i := counts[i] + count], k)
  {
  }

  lemma MaxBoundsStep(c: Config, s: State, r: Record)
    requires |s.counts| == c.countsLen && MaxBounds(c, s) && Accepts(c, r.value)
    ensures MaxBounds(c, Recorded(c, s, r))
  {
    if r.value > s.max {
      IndexMonotone(c, s.max, r.value);
    } else {
      IndexMonotone(c, r.value, s.max);
    }
  }

  lemma MinBoundsStep(c: Config, s: State, r: Record)
    requires |s.counts| == c.countsLen && MinBounds(c, s) && Accepts(c, r.value)
    ensures MinBounds(c, Recorded(c, s, r))
  {
    var i := CountsIndexFor(c, r.value);
    if r.value == 0 {
      ZeroHasFirstSlot(c);
      ZerosKept(s.counts, i, r.count, FirstInUse(c, |s.counts|, s.min));
    } else if r.value < s.min {
      IndexMonotone(c, r.value, s.min);
      ZerosKept(s.counts, i, r.count, i);
    } else {
      IndexMonotone(c, s.min, r.value);
      ZerosKept(s.counts, i, r.count, FirstInUse(c, |s.counts|, s.min));
    }
  }

  /** Recording any number of values, even none, keeps a histogram bounded. */
  lemma RecordKeepsBounded(c: Config, s: State, r: Record)
    requires Bounded(c, s) && r.count >= 0
    ensures Bounded(c, Recorded(c, s, r))
  {
    if Accepts(c, r.value) {
      SumStep(s.counts, CountsIndexFor(c, r.value), r.count);
      MaxBoundsStep(c, s, r);
      MinBoundsStep(c, s, r);
    }
  }

  lemma {:induction false} RunKeepsBounded(c: Config, s: State, rs: seq<Record>)
    requires Bounded(c, s) && forall r | r in rs :: r.count >= 0
    ensures Bounded(c, RecordedAll(c, s, rs))
  {
    if rs != [] {
      var q, r := rs[..|rs| - 1], rs[|rs| - 1];
      assert r in rs && forall x | x in q :: x in rs;
      RunKeepsBounded(c, s, q);
      RecordKeepsBounded(c, RecordedAll(c, s, q), r);
    }
  }

  /** Recording a positive number of values keeps a histogram consistent. */
  lemma RecordKeepsConsistent(c: Config, s: State, r: Record)
    requires Consistent(c, s) && r.count > 0
    ensures Consistent(c, Recorded(c, s, r))
  {
    RecordKeepsBounded(c, s, r);
  }

  lemma {:induction false} RunKeepsConsistent(c: Config, s: State, rs: seq<Record>)
    requires Consistent(c, s) && forall r | r in rs :: r.count > 0
    ensures Consistent(c, RecordedAll(c, s, rs))
  {
    if rs != [] {
      var q, r := rs[..|rs| - 1], rs[|rs| - 1];
      assert r in rs && forall x | x in q :: x in rs;
      RunKeepsConsistent(c, s, q);
      RecordKeepsConsistent(c, RecordedAll(c, s, q), r);
    }
  }

  /** No record, of whatever count, uses a slot that starts above the highest trackable value. */
  lemma {:induction false} RunKeepsRange(c: Config, s: State, rs: seq<Record>)
    requires |s.counts| == c.countsLen && WithinRange(c, s)
    ensures WithinRange(c, RecordedAll(c, s, rs))
  {
    if rs != [] {
      var q, r := rs[..|rs| - 1], rs[|rs| - 1];
      RunKeepsRange(c, s, q);
      if Accepts(c, r.value) { RangeStep(c, RecordedAll(c, s, q), r); }
    }
  }

  // ---------- coordinated omission ----------

  /** The records that back-fill from missing downwards, as long as a whole interval is left. */
  function Backfill(missing: int, count: int, interval: int): seq<Record>
    decreases missing
  {
    if 0 < interval <= missing
    then [Record(missing, count)] + Backfill(missing - interval, count, interval)
    else []
  }

  /** The records that hdr_record_corrected_values makes. */
  function Corrected(value: int, count: int, interval: int): seq<Record> {
    [Record(value, count)]
    + if interval <= 0 || value <= interval then [] else Backfill(value - interval, count, interval)
  }

  /** Recording that gives up at the first rejected record. */
  function RecordedUntilRejected(c: Config, s: State, rs: seq<Record>): ((State, bool))
    requires |s.counts| == c.countsLen
    decreases |rs|
  {
    if rs == [] then (s, true)
    else if !Accepts(c, rs[0].value) then (s, false)
    else RecordedUntilRejected(c, Recorded(c, s, rs[0]), rs[1..])
  }

  lemma RecordedUntilRejectedFirst(c: Config, s: State, r: Record, rest: seq<Record>)
    requires |s.counts| == c.countsLen
    ensures RecordedUntilRejected(c, s, [r] + rest)
         == if Accepts(c, r.value) then RecordedUntilRejected(c, Recorded(c, s, r), rest) else (s, false)
  {
    assert ([r] + rest)[1..] == rest;
  }

  lemma RecordedAllFirst(c: Config, s: State, rs: seq<Record>)
    requires |s.counts| == c.countsLen && rs != []
    ensures RecordedAll(c, s, rs) == RecordedAll(c, Recorded(c, s, rs[0]), rs[1..])
  {
    var first := [rs[0]];
    assert rs == first + rs[1..];
    assert first[..0] == [];
    assert RecordedAll(c, s, first) == Recorded(c, s, rs[0]);
    RecordedAllConcat(c, s, first, rs[1..]);
  }

  lemma {:induction false} NoneRejected(c: Config, s: State, rs: seq<Record>)
    requires |s.counts| == c.countsLen && forall r | r in rs :: Accepts(c, r.value)
    ensures RecordedUntilRejected(c, s, rs) == (RecordedAll(c, s, rs), true)
    decreases |rs|
  {
    if rs != [] {
      NoneRejected(c, Recorded(c, s, rs[0]), rs[1..]);
      RecordedAllFirst(c, s, rs);
    }
  }

  lemma {:induction false} BackfillValues(missing: int, count: int, interval: int)
    requires interval > 0
    ensures forall k | 0 <= k < |Backfill(missing, count, interval)| ::
              Backfill(missing, count, interval)[k] == Record(missing - k * interval, count)
              && interval <= missing - k * interval
    ensures missing >= 0 ==>
      |Backfill(missing, count, interval)| * interval <= missing < (|Backfill(missing, count, interval)| + 1) * interval
    decreases missing
  {
    if interval <= missing {
      var rest := Backfill(missing - interval, count, interval);
      BackfillValues(missing - interval, count, interval);
      Successor(|rest|, interval);
      Successor(|rest| + 1, interval);
      forall k | 0 <= k < |rest| + 1
        ensures Backfill(missing, count, interval)[k] == Record(missing - k * interval, count)
        ensures interval <= missing - k * interval
      {
        Successor(k - 1, interval);
      }
    }
  }

  /** Correcting for coordinated omission records value, value - interval, value - 2 * interval
      and so on, down to the last that is no less than the interval: as many values as intervals
      fit into value, and at least one. */
  lemma CorrectedValues(value: nat, count: int, interval: int)
    requires interval > 0
    ensures var rs := Corrected(value, count, interval);
      && (forall k | 0 <= k < |rs| ::
            rs[k] == Record(value - k * interval, count) && (k > 0 ==> interval <= rs[k].value))
      && (if value < interval then |rs| == 1 else |rs| * interval <= value < (|rs| + 1) * interval)
  {
    var rs := Corrected(value, count, interval);
    BackfillValues(value - interval, count, interval);
    if interval < value {
      var n := |rs| - 1;
      Successor(n, interval);
      Successor(n + 1, interval);
      forall k | 0 <= k < |rs|
        ensures rs[k] == Record(value - k * interval, count) && (k > 0 ==> interval <= rs[k].value)
      {
        Successor(k - 1, interval);
      }
    }
  }

  /** Correcting is all or nothing: when the value itself is accepted, no back-filled one is
      rejected. */
  lemma CorrectedIsAllOrNothing(c: Config, s: State, value: int, count: int, interval: int)
    requires c.Sized() && |s.counts| == c.countsLen
    ensures RecordedUntilRejected(c, s, Corrected(value, count, interval)) ==
      if Accepts(c, value) then (RecordedAll(c, s, Corrected(value, count, interval)), true) else (s, false)
  {
    if Accepts(c, value) {
      CorrectedAccepted(c, value, count, interval);
      NoneRejected(c, s, Corrected(value, count, interval));
    }
  }

  lemma CorrectedInRange(value: int, count: int, interval: int, r: Record)
    requires 0 <= value && r in Corrected(value, count, interval)
    ensures 0 <= r.value <= value && r.count == count
  {
    if 0 < interval < value && r in Backfill(value - interval, count, interval) {
      BackfillInRange(value - interval, count, interval, r);
    }
  }

  lemma {:induction false} BackfillInRange(missing: int, count: int, interval: int, r: Record)
    requires r in Backfill(missing, count, interval)
    ensures 0 < r.value <= missing && r.count == count
    decreases missing
  {
    if r != Record(missing, count) {
      BackfillInRange(missing - interval, count, interval, r);
    }
  }

  lemma {:induction false} TotalOfEqualCounts(c: Config, rs: seq<Record>, count: int)
    requires forall r | r in rs :: Accepts(c, r.value) && r.count == count
    ensures TotalSum(c, rs) == |rs| * count
  {
    if rs != [] {
      var q := rs[..|rs| - 1];
      assert rs[|rs| - 1] in rs && forall r | r in q :: r in rs;
      TotalOfEqualCounts(c, q, count);
      Successor(|q|, count);
    }
  }

  lemma {:induction false} TotalOfRun(c: Config, s: State, rs: seq<Record>)
    requires |s.counts| == c.countsLen
    ensures RecordedAll(c, s, rs).total == s.total + TotalSum(c, rs)
  {
    if rs != [] { TotalOfRun(c, s, rs[..|rs| - 1]); }
  }

  /** How many values are recorded for one: as many as intervals fit into it, and at least one. */
  function CorrectedCount(value: nat, interval: int): nat
    requires interval > 0
  {
    if value < interval then 1 else value / interval
  }

  lemma CorrectedLength(value: nat, count: int, interval: int)
    requires interval > 0
    ensures |Corrected(value, count, interval)| == CorrectedCount(value, interval)
  {
    CorrectedValues(value, count, interval);
    if value >= interval { QuotientIs(value, interval, |Corrected(value, count, interval)|); }
  }

  lemma QuotientIs(value: nat, interval: nat, n: nat)
    requires interval > 0 && n * interval <= value < (n + 1) * interval
    ensures value / interval == n
  {
    Successor(n, interval);
    QuotientUnique(interval, n, value - n * interval, value / interval, value % interval);
  }

  /** Correcting raises total_count by count for each of these values, or not at all. */
  lemma CorrectedTotal(c: Config, s: State, value: int, count: int, interval: int)
    requires c.Sized() && |s.counts| == c.countsLen && interval > 0
    ensures RecordedUntilRejected(c, s, Corrected(value, count, interval)).0.total ==
      s.total + if Accepts(c, value) then CorrectedCount(value, interval) * count else 0
  {
    CorrectedIsAllOrNothing(c, s, value, count, interval);
    if Accepts(c, value) {
      var rs := Corrected(value, count, interval);
      CorrectedAccepted(c, value, count, interval);
      TotalOfRun(c, s, rs);
      TotalOfEqualCounts(c, rs, count);
      CorrectedLength(value, count, interval);
    }
  }

  lemma CorrectedAccepted(c: Config, value: int, count: int, interval: int)
    requires c.Sized() && Accepts(c, value)
    ensures forall r | r in Corrected(value, count, interval) :: Accepts(c, r.value) && r.count == count
  {
    forall r | r in Corrected(value, count, interval)
      ensures Accepts(c, r.value) && r.count == count
    {
      CorrectedInRange(value, count, interval, r);
      AcceptsIffInRange(c, r.value);
    }
  }

  // ---------- what is reported ----------

  /** hdr_max */
  function ReportedMax(c: Config, max: nat): nat {
    if max == 0 then 0 else HighestEquivalent(c, max)
  }

  /** hdr_min */
  function ReportedMin(c: Config, firstCount: int, min: nat): int {
    if firstCount > 0 then 0
    else if min == INT64_MAX then INT64_MAX
    else LowestEquivalent(c, min)
  }

  lemma {:induction false} SlotInUse(c: Config, rs: seq<Record>, i: nat)
    requires forall r | r in rs :: r.count > 0
    ensures SlotSum(c, rs, i) >= 0
    ensures SlotSum(c, rs, i) > 0 <==> exists r :: r in rs && Accepts(c, r.value) && CountsIndexFor(c, r.value) == i
  {
    if rs != [] {
      var q, r := rs[..|rs| - 1], rs[|rs| - 1];
      assert rs == q + [r];
      SlotInUse(c, q, i);
    }
  }

  /** What hdr_min and hdr_max report after records of positive counts: no value in range lies
      outside, and each of the two is the end of the slot of a recorded value, but 0 when nothing
      greater has been recorded, and INT64_MAX when nothing less has been. */
  lemma ReportedExtremes(c: Config, rs: seq<Record>)
    requires c.Sized() && c.highest <= INT64_MAX && (forall r | r in rs :: r.count > 0)
    ensures var s := RecordedAll(c, EmptyState(c), rs);
      && s.max >= 0 && s.min > 0 && |s.counts| > 0
      && var low, high := ReportedMin(c, s.counts[0], s.min), ReportedMax(c, s.max);
      && (forall r | r in rs && 0 <= r.value <= c.highest :: low <= r.value <= high)
      && (high == 0 || exists r :: r in rs && 0 <= r.value <= c.highest && high == HighestEquivalent(c, r.value))
      && (low == INT64_MAX || exists r :: r in rs && 0 <= r.value <= c.highest && low == LowestEquivalent(c, r.value))
  {
    var s := RecordedAll(c, EmptyState(c), rs);
    RunMeaning(c, rs);
    InRangeHasSlot(c, 0);
    SlotInUse(c, rs, 0);
    GreatestReported(c, rs, s.max);
    LeastReported(c, rs, s.counts[0], s.min);
  }

  lemma GreatestReported(c: Config, rs: seq<Record>, max: int)
    requires c.Sized() && IsGreatest(c, rs, max)
    ensures var high := ReportedMax(c, max);
      && (forall r | r in rs && 0 <= r.value <= c.highest :: r.value <= high)
      && (high == 0 || exists r :: r in rs && 0 <= r.value <= c.highest && high == HighestEquivalent(c, r.value))
  {
    SlotOfValue(c, max);
    forall r | r in rs
      ensures Accepts(c, r.value) <==> 0 <= r.value <= c.highest
    {
      AcceptsIffInRange(c, r.value);
    }
  }

  lemma LeastReported(c: Config, rs: seq<Record>, firstCount: int, min: int)
    requires c.Sized() && IsLeastNonZero(c, rs, min)
    requires firstCount > 0 <==> exists r :: r in rs && Accepts(c, r.value) && CountsIndexFor(c, r.value) == 0
    ensures var low := ReportedMin(c, firstCount, min);
      && (forall r | r in rs && 0 <= r.value <= c.highest :: low <= r.value)
      && (low == INT64_MAX || exists r :: r in rs && 0 <= r.value <= c.highest && low == LowestEquivalent(c, r.value))
  {
    SlotOfValue(c, min);
    ZeroHasFirstSlot(c);
    forall r | r in rs
      ensures Accepts(c, r.value) <==> 0 <= r.value <= c.highest
      ensures Accepts(c, r.value) && CountsIndexFor(c, r.value) == 0 ==> LowestEquivalent(c, r.value) == 0
    {
      AcceptsIffInRange(c, r.value);
      if Accepts(c, r.value) { SlotOfValue(c, r.value); }
    }
  }

  // ---------- recomputing the counters ----------

  function PositiveSum(counts: seq<int>, n: nat): int
    requires n <= |counts|
  {
    if n == 0 then 0 else PositiveSum(counts, n - 1) + if counts[n - 1] > 0 then counts[n - 1] else 0
  }

  /** The last of the first n slots that is in use, or -1. */
  function LastPositive(counts: seq<int>, n: nat): (i: int)
    requires n <= |counts|
    ensures -1 <= i < n
    ensures i >= 0 ==> counts[i] > 0
    ensures forall j | i < j < n :: counts[j] <= 0
  {
    if n == 0 then -1 else if counts[n - 1] > 0 then n - 1 else LastPositive(counts, n - 1)
  }

  /** The first of the slots 1 to n - 1 that is in use, or -1. */
  function FirstPositivePastZero(counts: seq<int>, n: nat): (i: int)
    requires n <= |counts|
    ensures i == -1 || (0 < i < n && counts[i] > 0)
    ensures forall j | 0 < j < (if i == -1 then n else i) :: counts[j] <= 0
  {
    if n <= 1 then -1
    else
      var i := FirstPositivePastZero(counts, n - 1);
      if i == -1 && counts[n - 1] > 0 then n - 1 else i
  }

  /** The contents that hdr_reset_internal_counters derives from the counts alone. */
  function Recounted(c: Config, counts: seq<int>): State {
    var first, last := FirstPositivePastZero(counts, |counts|), LastPositive(counts, |counts|);
    State(counts, PositiveSum(counts, |counts|),
          if first == -1 then INT64_MAX else ValueAtIndex(c, first),
          if last == -1 then 0 else HighestEquivalent(c, ValueAtIndex(c, last)))
  }

  lemma {:induction false} PositiveSumIsPrefix(counts: seq<int>, n: nat)
    requires n <= |counts| && NonNegative(counts)
    ensures PositiveSum(counts, n) == Prefix(counts, n)
  {
    if n != 0 { PositiveSumIsPrefix(counts, n - 1); }
  }

  /** Recomputing the counters of valid counts gives a consistent histogram. */
  lemma RecountedIsConsistent(c: Config, counts: seq<int>)
    requires |counts| == c.countsLen && c.Sized() && NonNegative(counts)
    requires forall i | 0 <= i < |counts| :: counts[i] > 0 ==> ValueAtIndex(c, i) < INT64_MAX
    ensures Consistent(c, Recounted(c, counts))
  {
    var s := Recounted(c, counts);
    PositiveSumIsPrefix(counts, |counts|);
    ZeroHasFirstSlot(c);
    InRangeHasSlot(c, 0);
    var last := LastPositive(counts, |counts|);
    if last != -1 {
      IndexOfValueAtIndex(c, last);
      HighestEquivalentOfStart(c, ValueAtIndex(c, last));
    }
    var first := FirstPositivePastZero(counts, |counts|);
    if first != -1 {
      IndexOfValueAtIndex(c, first);
      ValueAtIndexIncreasing(c, 0, first);
    }
  }

  /** The slot of max is in use, or max is 0 and reported as 0 again. */
  predicate MaxComesBack(c: Config, s: State)
    requires s.max >= 0 && CountsIndexFor(c, s.max) < |s.counts|
  {
    if s.max > 0 then s.counts[CountsIndexFor(c, s.max)] > 0 else c.unitMagnitude == 0 || s.total == 0
  }

  /** The slot of min is in use, or no slot is when there is none, or the minimum does not show. */
  ghost predicate MinComesBack(c: Config, s: State)
    requires |s.counts| > 0 && (s.min != INT64_MAX ==> s.min >= 0 && CountsIndexFor(c, s.min) < |s.counts|)
  {
    || s.counts[0] > 0
    || if s.min == INT64_MAX then ZerosBelow(s.counts, |s.counts|) else s.counts[CountsIndexFor(c, s.min)] > 0
  }

  /** After any run of records, recomputing the counters changes no count and not the total, and
      hdr_min and hdr_max exactly when the slots of the extremes are not in use, or when the
      greatest value recorded is 0 and a unit is larger than 1, or when the least one but 0 is
      INT64_MAX. */
  lemma RecountedReports(c: Config, s: State)
    requires Bounded(c, s) && c.halfMagnitude <= 61
    ensures var t := Recounted(c, s.counts);
      && t.counts == s.counts && t.total == s.total
      && t.min >= 0 && t.max >= 0
      && (ReportedMin(c, s.counts[0], s.min) == ReportedMin(c, s.counts[0], t.min) <==> MinComesBack(c, s))
      && (ReportedMax(c, s.max) == ReportedMax(c, t.max) <==> MaxComesBack(c, s))
  {
    PositiveSumIsPrefix(s.counts, |s.counts|);
    RecountedMin(c, s);
    RecountedMax(c, s);
  }

  /** After records of positive counts only those last two exceptions are left. */
  lemma ConsistentComesBack(c: Config, s: State)
    requires Consistent(c, s)
    ensures Bounded(c, s)
    ensures MinComesBack(c, s) <==> s.counts[0] > 0 || s.min < INT64_MAX || ZerosBelow(s.counts, |s.counts|)
    ensures MaxComesBack(c, s) <==> s.max > 0 || c.unitMagnitude == 0 || s.total == 0
  {
  }

  lemma RecountedMin(c: Config, s: State)
    requires Bounded(c, s) && c.halfMagnitude <= 61
    ensures ReportedMin(c, s.counts[0], s.min) == ReportedMin(c, s.counts[0], Recounted(c, s.counts).min)
      <==> MinComesBack(c, s)
  {
    var first := FirstPositivePastZero(s.counts, |s.counts|);
    MaxStartsNoSlot(c);
    if s.counts[0] == 0 {
      SlotOfValue(c, s.min);
      if s.min != INT64_MAX { FirstIsMinSlot(s.counts, CountsIndexFor(c, s.min)); }
      if first != -1 { LowestOfSlot(c, s.min, first); }
    }
  }

  lemma FirstIsMinSlot(counts: seq<int>, i: nat)
    requires i < |counts| && counts[0] == 0 && NonNegative(counts) && ZerosBelow(counts, i)
    ensures FirstPositivePastZero(counts, |counts|) == i <==> counts[i] > 0
  {
  }

  lemma LowestOfSlot(c: Config, value: nat, i: nat)
    ensures LowestEquivalent(c, ValueAtIndex(c, i)) == LowestEquivalent(c, value) <==> i == CountsIndexFor(c, value)
    ensures ValueAtIndex(c, i) == LowestEquivalent(c, ValueAtIndex(c, i))
  {
    IndexOfValueAtIndex(c, i);
    EquivalentIffSameIndex(c, ValueAtIndex(c, i), value);
  }

  lemma HighestOfZero(c: Config)
    ensures HighestEquivalent(c, 0) == Pow2(c.unitMagnitude) - 1
  {
    ValueOfParts(c, 0, 0);
    LocateUnique(c, 0, 0, 0);
  }

  lemma RecountedMax(c: Config, s: State)
    requires Bounded(c, s)
    ensures ReportedMax(c, s.max) == ReportedMax(c, Recounted(c, s.counts).max) <==> MaxComesBack(c, s)
  {
    var last := LastPositive(s.counts, |s.counts|);
    HighestIsHigher(c, s.max);
    if last == -1 {
      PrefixOfZeros(s.counts, 0, |s.counts|);
    } else {
      PrefixMonotone(s.counts, last + 1, |s.counts|);
      PrefixMonotone(s.counts, 0, last);
      ReportedOfSlot(c, last);
      if s.max > 0 {
        SameHighest(c, s.max, last);
      } else {
        ZeroHasFirstSlot(c);
        UnitsOfZero(c);
      }
    }
  }

  lemma HighestIsHigher(c: Config, value: nat)
    ensures value <= HighestEquivalent(c, value)
  {
    SlotOfValue(c, value);
  }

  /** The maximum recomputed from the last slot in use is reported as it is. */
  lemma ReportedOfSlot(c: Config, i: nat)
    ensures ReportedMax(c, HighestEquivalent(c, ValueAtIndex(c, i))) == HighestEquivalent(c, ValueAtIndex(c, i))
  {
    HighestOfHighest(c, ValueAtIndex(c, i));
  }

  lemma SameHighest(c: Config, value: nat, i: nat)
    ensures HighestEquivalent(c, value) == HighestEquivalent(c, ValueAtIndex(c, i)) <==> CountsIndexFor(c, value) == i
  {
    IndexOfValueAtIndex(c, i);
    HighestEquivalentOfStart(c, ValueAtIndex(c, i));
    HighestEquivalentOfStart(c, value);
    SlotOfValue(c, value);
  }

  lemma UnitsOfZero(c: Config)
    ensures HighestEquivalent(c, 0) == 0 <==> c.unitMagnitude == 0
  {
    HighestOfZero(c);
  }

  lemma HighestOfHighest(c: Config, value: nat)
    ensures HighestEquivalent(c, HighestEquivalent(c, value)) == HighestEquivalent(c, value)
  {
    HighestEquivalentOfStart(c, value);
    SlotOfValue(c, value);
    SlotOfValue(c, HighestEquivalent(c, value));
  }
}
