/** Percentile queries, by integer rank: what the scans of the counts array find is, up to the
    resolution of the histogram, the value of that rank in the sorted list of recorded values. */
module RankQueries {
  import opened Bits
  import opened BucketMath
  import opened Recording
  import opened Histograms
  import opened Iteration

  // ---------- the sorted list of recorded values ----------

  function Repeat(value: int, n: nat): seq<int> {
    if n == 0 then [] else Repeat(value, n - 1) + [value]
  }

  /** The values that one record adds to the list. */
  function AppendValues(c: Config, values: seq<int>, r: Record): seq<int> {
    values + if Accepts(c, r.value) && r.count > 0 then Repeat(r.value, r.count) else []
  }

  /** All accepted values in the order they were recorded. */
  function Values(c: Config, rs: seq<Record>): seq<int> {
    if rs == [] then []
    else
      var r := rs[|rs| - 1];
      AppendValues(c, Values(c, rs[..|rs| - 1]), r)
  }

  /** How often a value has been recorded. */
  function TimesRecorded(c: Config, rs: seq<Record>, value: int): nat {
    if rs == [] then 0
    else
      var r := rs[|rs| - 1];
      TimesRecorded(c, rs[..|rs| - 1], value)
      + if r.value == value && 0 <= value <= c.highest && r.count > 0 then r.count else 0
  }

  lemma {:induction false} RepeatHolds(value: int, n: nat, v: int)
    ensures multiset(Repeat(value, n))[v] == if v == value then n else 0
  {
    if n != 0 { RepeatHolds(value, n - 1, v); }
  }

  /** The list holds every value in range as often as it has been recorded. */
  lemma {:induction false} ValuesMeaning(c: Config, rs: seq<Record>, v: int)
    requires c.Sized()
    ensures multiset(Values(c, rs))[v] == TimesRecorded(c, rs, v)
  {
    if rs != [] {
      var r := rs[|rs| - 1];
      ValuesMeaning(c, rs[..|rs| - 1], v);
      AcceptsIffInRange(c, r.value);
      if r.count > 0 { RepeatHolds(r.value, r.count, v); }
    }
  }

  ghost predicate Ascending(s: seq<int>) {
    forall i, j | 0 <= i <= j < |s| :: s[i] <= s[j]
  }

  function Insert(s: seq<int>, v: int): seq<int> {
    if s == [] || s[|s| - 1] <= v then s + [v]
    else Insert(s[..|s| - 1], v) + [s[|s| - 1]]
  }

  function Sorted(s: seq<int>): seq<int> {
    if s == [] then [] else Insert(Sorted(s[..|s| - 1]), s[|s| - 1])
  }

  lemma {:induction false} InsertKeepsAll(s: seq<int>, v: int)
    ensures multiset(Insert(s, v)) == multiset(s) + multiset{v}
  {
    if s != [] && s[|s| - 1] > v {
      assert s == s[..|s| - 1] + [s[|s| - 1]];
      InsertKeepsAll(s[..|s| - 1], v);
    }
  }

  lemma {:induction false} InsertAscending(s: seq<int>, v: int, last: int)
    requires Ascending(s) && v <= last && (s != [] ==> s[|s| - 1] <= last)
    ensures Ascending(Insert(s, v)) && Insert(s, v) != [] && Insert(s, v)[|Insert(s, v)| - 1] <= last
  {
    if s != [] && s[|s| - 1] > v {
      InsertAscending(s[..|s| - 1], v, s[|s| - 1]);
    }
  }

  /** Sorted lists the same values, as often, in ascending order. */
  lemma {:induction false} SortedMeaning(s: seq<int>)
    ensures Ascending(Sorted(s)) && multiset(Sorted(s)) == multiset(s) && |Sorted(s)| == |s|
  {
    if s != [] {
      var t := Sorted(s[..|s| - 1]);
      assert s == s[..|s| - 1] + [s[|s| - 1]];
      SortedMeaning(s[..|s| - 1]);
      InsertAscending(t, s[|s| - 1], if t == [] || t[|t| - 1] <= s[|s| - 1] then s[|s| - 1] else t[|t| - 1]);
      InsertKeepsAll(t, s[|s| - 1]);
    }
    assert |multiset(Sorted(s))| == |Sorted(s)|;
  }

  // ---------- prefix sums count values ----------

  /** How many values of s fall into the slots below i. */
  function Below(c: Config, s: seq<int>, i: int): nat {
    if s == [] then 0
    else Below(c, s[..|s| - 1], i) + if s[|s| - 1] >= 0 && CountsIndexFor(c, s[|s| - 1]) < i then 1 else 0
  }

  function Hits(c: Config, v: int, i: int): nat {
    if v >= 0 && CountsIndexFor(c, v) < i then 1 else 0
  }

  lemma BelowAppend(c: Config, s: seq<int>, v: int, i: int)
    ensures Below(c, s + [v], i) == Below(c, s, i) + Hits(c, v, i)
  {
    assert (s + [v])[..|s|] == s;
  }

  lemma {:induction false} BelowInsert(c: Config, s: seq<int>, v: int, i: int)
    ensures Below(c, Insert(s, v), i) == Below(c, s, i) + Hits(c, v, i)
  {
    if s == [] || s[|s| - 1] <= v {
      BelowAppend(c, s, v, i);
    } else {
      BelowInsert(c, s[..|s| - 1], v, i);
      BelowAppend(c, Insert(s[..|s| - 1], v), s[|s| - 1], i);
    }
  }

  lemma {:induction false} BelowSorted(c: Config, s: seq<int>, i: int)
    ensures Below(c, Sorted(s), i) == Below(c, s, i)
  {
    if s != [] {
      BelowSorted(c, s[..|s| - 1], i);
      BelowInsert(c, Sorted(s[..|s| - 1]), s[|s| - 1], i);
    }
  }

  lemma RepeatLast(s: seq<int>, v: int, n: nat)
    requires n > 0
    ensures s + Repeat(v, n) == s + Repeat(v, n - 1) + [v]
  {
  }

  lemma {:induction false} BelowRepeat(c: Config, s: seq<int>, v: int, n: nat, i: int)
    ensures Below(c, s + Repeat(v, n), i) == Below(c, s, i) + if Hits(c, v, i) == 1 then n else 0
  {
    if n == 0 {
      assert s + Repeat(v, n) == s;
    } else {
      BelowRepeat(c, s, v, n - 1, i);
      RepeatLast(s, v, n);
      BelowAppend(c, s + Repeat(v, n - 1), v, i);
    }
  }

  /** The prefix sums of the counts array count the recorded values of the slots summed. */
  lemma {:induction false} PrefixCountsValues(c: Config, rs: seq<Record>, n: nat)
    requires n <= c.countsLen && forall r | r in rs :: r.count >= 0
    ensures Prefix(RecordedAll(c, EmptyState(c), rs).counts, n) == Below(c, Values(c, rs), n)
  {
    if rs == [] {
      SumOfZeros(n, c.countsLen);
    } else {
      PrefixCountsValues(c, rs[..|rs| - 1], n);
      PrefixStep(c, RecordedAll(c, EmptyState(c), rs[..|rs| - 1]), Values(c, rs[..|rs| - 1]), rs[|rs| - 1], n);
    }
  }

  lemma PrefixStep(c: Config, s: State, values: seq<int>, r: Record, n: nat)
    requires |s.counts| == c.countsLen && n <= c.countsLen && r.count >= 0
    requires Prefix(s.counts, n) == Below(c, values, n)
    ensures Prefix(Recorded(c, s, r).counts, n) == Below(c, AppendValues(c, values, r), n)
  {
    if Accepts(c, r.value) {
      PrefixUpdate(s.counts, CountsIndexFor(c, r.value), r.count, n);
      BelowRepeat(c, values, r.value, r.count, n);
    } else {
      assert AppendValues(c, values, r) == values;
    }
  }

  lemma {:induction false} BelowAtLeast(c: Config, s: seq<int>, i: int, t: nat)
    requires t <= |s| && forall k | 0 <= k < t :: s[k] >= 0 && CountsIndexFor(c, s[k]) < i
    ensures Below(c, s, i) >= t
  {
    if s != [] {
      var n := |s| - 1;
      BelowAtLeast(c, s[..n], i, if t <= n then t else n);
    }
  }

  lemma {:induction false} BelowAtMost(c: Config, s: seq<int>, i: int, t: nat)
    requires t <= |s| && forall k | t <= k < |s| :: s[k] >= 0 && CountsIndexFor(c, s[k]) >= i
    ensures Below(c, s, i) <= t
  {
    if s != [] {
      var n := |s| - 1;
      BelowAtMost(c, s[..n], i, if t <= n then t else n);
    }
  }

  // ---------- the first slot that reaches a rank ----------

  /** i is the first slot, from slot `from` on, whose prefix sum reaches t. */
  ghost predicate IsFirstReaching(counts: seq<int>, t: int, from: nat, i: nat) {
    && from <= i <= |counts|
    && (forall j | from < j <= i :: Prefix(counts, j) < t)
    && (i < |counts| ==> t <= Prefix(counts, i + 1))
  }

  /** The first slot whose prefix sum reaches t, or the number of slots. */
  function FirstReaching(counts: seq<int>, t: int, from: nat := 0): (i: nat)
    requires from <= |counts|
    ensures IsFirstReaching(counts, t, from, i)
    decreases |counts| - from
  {
    if from == |counts| || t <= Prefix(counts, from + 1) then from else FirstReaching(counts, t, from + 1)
  }

  lemma FirstReachingUnique(counts: seq<int>, t: int, i: nat)
    requires IsFirstReaching(counts, t, 0, i)
    ensures FirstReaching(counts, t) == i
  {
    var f := FirstReaching(counts, t);
  }

  lemma {:induction false} ValuesAccepted(c: Config, rs: seq<Record>, v: int)
    requires v in Values(c, rs)
    ensures Accepts(c, v)
  {
    var q, r := rs[..|rs| - 1], rs[|rs| - 1];
    if v in Values(c, q) {
      ValuesAccepted(c, q, v);
    } else {
      RepeatIs(r.value, r.count, v);
    }
  }

  lemma {:induction false} RepeatIs(value: int, n: nat, v: int)
    requires v in Repeat(value, n)
    ensures v == value
  {
    if v in Repeat(value, n - 1) { RepeatIs(value, n - 1, v); }
  }

  lemma SortedAccepted(c: Config, rs: seq<Record>, k: nat)
    requires k < |Sorted(Values(c, rs))|
    ensures Accepts(c, Sorted(Values(c, rs))[k])
  {
    SortedMeaning(Values(c, rs));
    assert Sorted(Values(c, rs))[k] in multiset(Sorted(Values(c, rs)));
    ValuesAccepted(c, rs, Sorted(Values(c, rs))[k]);
  }

  /** Rank queries are exact on slots: after any run of records the first slot whose prefix sum
      reaches t is the slot of the t-th smallest value recorded. */
  lemma RankFindsSlot(c: Config, rs: seq<Record>, t: int)
    requires forall r | r in rs :: r.count >= 0
    requires 1 <= t <= |Sorted(Values(c, rs))|
    ensures Accepts(c, Sorted(Values(c, rs))[t - 1])
    ensures FirstReaching(RecordedAll(c, EmptyState(c), rs).counts, t)
         == CountsIndexFor(c, Sorted(Values(c, rs))[t - 1])
  {
    var list, counts := Sorted(Values(c, rs)), RecordedAll(c, EmptyState(c), rs).counts;
    SortedMeaning(Values(c, rs));
    forall k | 0 <= k < |list|
      ensures Accepts(c, list[k])
    {
      SortedAccepted(c, rs, k);
    }
    forall j | 0 <= j <= |counts|
      ensures Prefix(counts, j) == Below(c, list, j)
    {
      PrefixCountsValues(c, rs, j);
      BelowSorted(c, Values(c, rs), j);
    }
    RankInList(c, counts, list, t);
  }

  lemma RankInList(c: Config, counts: seq<int>, list: seq<int>, t: int)
    requires Ascending(list) && 1 <= t <= |list|
    requires forall k | 0 <= k < |list| :: list[k] >= 0 && CountsIndexFor(c, list[k]) < |counts|
    requires forall j | 0 <= j <= |counts| :: Prefix(counts, j) == Below(c, list, j)
    ensures FirstReaching(counts, t) == CountsIndexFor(c, list[t - 1])
  {
    var i := CountsIndexFor(c, list[t - 1]);
    RankReached(c, list, t);
    forall j | 0 < j <= i
      ensures Prefix(counts, j) < t
    {
      RankNotReached(c, list, t, j);
    }
    FirstReachingUnique(counts, t, i);
  }

  lemma RankReached(c: Config, list: seq<int>, t: int)
    requires Ascending(list) && 1 <= t <= |list| && forall k | 0 <= k < |list| :: list[k] >= 0
    ensures Below(c, list, CountsIndexFor(c, list[t - 1]) + 1) >= t
  {
    forall k | 0 <= k < t
      ensures CountsIndexFor(c, list[k]) < CountsIndexFor(c, list[t - 1]) + 1
    {
      IndexMonotone(c, list[k], list[t - 1]);
    }
    BelowAtLeast(c, list, CountsIndexFor(c, list[t - 1]) + 1, t);
  }

  lemma RankNotReached(c: Config, list: seq<int>, t: int, i: int)
    requires Ascending(list) && 1 <= t <= |list| && forall k | 0 <= k < |list| :: list[k] >= 0
    requires i <= CountsIndexFor(c, list[t - 1])
    ensures Below(c, list, i) < t
  {
    forall k | t - 1 <= k < |list|
      ensures CountsIndexFor(c, list[k]) >= i
    {
      IndexMonotone(c, list[t - 1], list[k]);
    }
    BelowAtMost(c, list, i, t - 1);
  }

  /** What hdr_value_at_percentile returns for rank t. */
  function ValueOfRank(c: Config, counts: seq<int>, t: int): nat {
    var i := FirstReaching(counts, t);
    HighestEquivalent(c, if i < |counts| then ValueAtIndex(c, i) else 0)
  }

  /** The answer to a rank query is no less than the value of that rank, and too large by less
      than one unit in bucket 0 and by less than one part in 10^figures elsewhere. */
  lemma RankAccuracy(c: Config, rs: seq<Record>, t: int)
    requires c.Resolves() && forall r | r in rs :: r.count >= 0
    requires 1 <= t <= |Sorted(Values(c, rs))|
    ensures Accurate(c, Sorted(Values(c, rs))[t - 1], ValueOfRank(c, RecordedAll(c, EmptyState(c), rs).counts, t))
  {
    RankFindsSlot(c, rs, t);
    SlotIsAccurate(c, RecordedAll(c, EmptyState(c), rs).counts, t, Sorted(Values(c, rs))[t - 1]);
  }

  /** reported may stand for the recorded value. */
  predicate Accurate(c: Config, recorded: int, reported: int)
    requires c.Resolves()
  {
    0 <= recorded <= reported &&
       if BucketIndex(c, recorded) == 0
       then reported - recorded < Pow2(c.unitMagnitude)
       else (reported - recorded) * Pow10(c.figures) < recorded
  }

  lemma SlotIsAccurate(c: Config, counts: seq<int>, t: int, x: int)
    requires c.Resolves() && |counts| == c.countsLen && Accepts(c, x)
    requires FirstReaching(counts, t) == CountsIndexFor(c, x)
    ensures Accurate(c, x, ValueOfRank(c, counts, t))
  {
    SlotOfValue(c, x);
    HighestEquivalentOfStart(c, x);
    assert ValueOfRank(c, counts, t) == HighestEquivalent(c, x);
    HighestIsAccurate(c, x);
  }

  lemma HighestIsAccurate(c: Config, x: nat)
    requires c.Resolves()
    ensures Accurate(c, x, HighestEquivalent(c, x))
  {
    Precision(c, x);
  }

  /** The ranks that exist are those up to the total. */
  lemma RanksExist(c: Config, rs: seq<Record>)
    requires forall r | r in rs :: r.count >= 0
    ensures |Sorted(Values(c, rs))| == RecordedAll(c, EmptyState(c), rs).total
  {
    SortedMeaning(Values(c, rs));
    ValuesTotal(c, rs);
  }

  lemma {:induction false} ValuesTotal(c: Config, rs: seq<Record>)
    requires forall r | r in rs :: r.count >= 0
    ensures |Values(c, rs)| == RecordedAll(c, EmptyState(c), rs).total
  {
    if rs != [] {
      ValuesTotal(c, rs[..|rs| - 1]);
      if rs[|rs| - 1].count > 0 {
        RepeatLength(rs[|rs| - 1].value, rs[|rs| - 1].count);
      }
    }
  }

  lemma {:induction false} RepeatLength(v: int, n: nat)
    ensures |Repeat(v, n)| == n
  {
    if n != 0 { RepeatLength(v, n - 1); }
  }

  // ---------- the scans ----------

  /** get_value_from_idx_up_to_count_scalar */
  method ScanScalar(h: Histogram, t: int) returns (value: nat)
    ensures var i := FirstReaching(h.counts[..], t);
      value == if i < h.counts.Length then ValueAtIndex(h.cfg, i) else 0
  {
    var countTo := 0;
    for i := 0 to h.counts.Length
      invariant countTo == Prefix(h.counts[..], i)
      invariant FirstReaching(h.counts[..], t) == FirstReaching(h.counts[..], t, i)
    {
      countTo := countTo + h.counts[i];
      if countTo >= t {
        return ValueAtIndex(h.cfg, i);
      }
    }
    return 0;
  }

  /** The slots below i have been scanned and do not reach the rank, and running is their sum. */
  ghost predicate ScannedTo(counts: seq<int>, t: int, running: int, i: nat) {
    i <= |counts| && running == Prefix(counts, i) && FirstReaching(counts, t) == FirstReaching(counts, t, i)
  }

  lemma ScanNext(counts: seq<int>, t: int, running: int, i: nat)
    requires ScannedTo(counts, t, running, i) && i < |counts|
    ensures if running + counts[i] >= t then FirstReaching(counts, t) == i
            else ScannedTo(counts, t, running + counts[i], i + 1)
  {
  }

  /** The scan of the four lanes whose sum reaches the rank. */
  method ScanLanes(h: Histogram, t: int, before: int, i: nat) returns (value: nat)
    requires i + 4 <= h.counts.Length && ScannedTo(h.counts[..], t, before, i) && t <= Prefix(h.counts[..], i + 4)
    ensures var k := FirstReaching(h.counts[..], t); k < h.counts.Length && value == ValueAtIndex(h.cfg, k)
  {
    var running := before;
    for j := i to i + 4
      invariant ScannedTo(h.counts[..], t, running, j) && (j > i ==> running < t)
    {
      ScanNext(h.counts[..], t, running, j);
      running := running + h.counts[j];
      if running >= t {
        return ValueAtIndex(h.cfg, j);
      }
    }
    assert false;
  }

  /** get_value_from_idx_up_to_count_avx2: four lanes at a time, added in 64-bit arithmetic that
      wraps around, and a scan of the four when their sum reaches the rank.  Once entered, that
      inner scan always returns. */
  method ScanChunked(h: Histogram, t: int) returns (value: nat)
    requires NonNegative(h.counts[..]) && Sum(h.counts[..]) <= INT64_MAX
    ensures var i := FirstReaching(h.counts[..], t);
      value == if i < h.counts.Length then ValueAtIndex(h.cfg, i) else 0
  {
    ghost var counts := h.counts[..];
    var running, i := 0, 0;
    var limit := 4 * (h.counts.Length / 4);
    ghost var chunks := 0;
    while i < limit
      invariant 0 <= i == 4 * chunks <= limit
      invariant ScannedTo(counts, t, running, i)
    {
      ChunkIsFour(counts, i);
      var chunk := Wrap64(Wrap64(h.counts[i] + h.counts[i + 2]) + Wrap64(h.counts[i + 1] + h.counts[i + 3]));
      if running + chunk >= t {
        value := ScanLanes(h, t, running, i);
        return;
      }
      running := running + chunk;
      SkipFour(counts, t, i);
      i, chunks := i + 4, chunks + 1;
    }
    while i < h.counts.Length
      invariant 0 <= i <= h.counts.Length
      invariant ScannedTo(counts, t, running, i)
    {
      ScanNext(counts, t, running, i);
      running := running + h.counts[i];
      if running >= t {
        return ValueAtIndex(h.cfg, i);
      }
      i := i + 1;
    }
    return 0;
  }

  lemma ChunkIsFour(counts: seq<int>, i: nat)
    requires i + 4 <= |counts| && NonNegative(counts) && Sum(counts) <= INT64_MAX
    ensures Wrap64(Wrap64(counts[i] + counts[i + 2]) + Wrap64(counts[i + 1] + counts[i + 3]))
         == counts[i] + counts[i + 1] + counts[i + 2] + counts[i + 3]
         == Prefix(counts, i + 4) - Prefix(counts, i)
  {
    FourMore(counts, i);
    PrefixMonotone(counts, 0, i);
    PrefixMonotone(counts, i + 4, |counts|);
  }

  lemma FourMore(counts: seq<int>, i: nat)
    requires i + 4 <= |counts|
    ensures Prefix(counts, i + 4) == Prefix(counts, i) + counts[i] + counts[i + 1] + counts[i + 2] + counts[i + 3]
  {
    assert Prefix(counts, i + 2) == Prefix(counts, i) + counts[i] + counts[i + 1];
    assert Prefix(counts, i + 4) == Prefix(counts, i + 2) + counts[i + 2] + counts[i + 3];
  }

  lemma SkipFour(counts: seq<int>, t: int, i: nat)
    requires i + 4 <= |counts| && NonNegative(counts) && Prefix(counts, i + 4) < t
    ensures FirstReaching(counts, t, i) == FirstReaching(counts, t, i + 4)
  {
    PrefixMonotone(counts, i + 1, i + 4);
    PrefixMonotone(counts, i + 2, i + 4);
    PrefixMonotone(counts, i + 3, i + 4);
    assert FirstReaching(counts, t, i) == FirstReaching(counts, t, i + 2);
    assert FirstReaching(counts, t, i + 2) == FirstReaching(counts, t, i + 4);
  }

  /** hdr_value_at_percentile for a rank instead of a percentile, with either scan. */
  method ValueAtRank(h: Histogram, rank: int, avx2: bool) returns (value: nat)
    requires NonNegative(h.counts[..]) && Sum(h.counts[..]) <= INT64_MAX
    ensures value == ValueOfRank(h.cfg, h.counts[..], if rank > 0 then rank else 1)
  {
    var t := if rank > 0 then rank else 1;
    var start;
    if avx2 {
      start := ScanChunked(h, t);
    } else {
      start := ScanScalar(h, t);
    }
    value := HighestEquivalent(h.cfg, start);
  }

  /** The answer of hdr_value_at_percentiles for one rank: that of a separate query when the
      rank exists, and the rank itself, left in place, when it exceeds the total. */
  function BatchAnswer(c: Config, counts: seq<int>, rank: int): int {
    if rank <= Sum(counts) then ValueOfRank(c, counts, rank) else rank
  }

  /** Of a rank beyond the total the single query makes the highest value equivalent to 0, the
      batch the rank: they agree exactly when the rank exists, or happens to be that value. */
  lemma BatchAgreesIff(c: Config, counts: seq<int>, rank: int)
    requires NonNegative(counts)
    ensures BatchAnswer(c, counts, rank) == ValueOfRank(c, counts, rank) <==>
      rank <= Sum(counts) || rank == Pow2(c.unitMagnitude) - 1
  {
    if rank > Sum(counts) {
      NoneReaching(counts, rank);
      HighestOfZero(c);
    }
  }

  lemma NoneReaching(counts: seq<int>, rank: int)
    requires NonNegative(counts) && rank > Sum(counts)
    ensures FirstReaching(counts, rank) == |counts|
  {
    var i := FirstReaching(counts, rank);
    if i < |counts| { PrefixMonotone(counts, i + 1, |counts|); }
  }

  /** The input for which this happens: hdr_value_at_percentiles turns every percentile of an empty
      histogram into rank 1 and answers 1, while hdr_value_at_percentile answers with the highest
      value equivalent to 0. */
  lemma EmptyBatch(c: Config)
    requires c.Sized()
    ensures var counts := EmptyState(c).counts;
      BatchAnswer(c, counts, 1) == 1 && ValueOfRank(c, counts, 1) == Pow2(c.unitMagnitude) - 1
  {
    SumOfZeros(c.countsLen, c.countsLen);
    NoneReaching(EmptyState(c).counts, 1);
    HighestOfZero(c);
  }

  /** The ranks before pos are answered, the others wait for a larger total. */
  ghost predicate Progress(c: Config, counts: seq<int>, ranks: seq<int>, values: seq<int>, pos: nat, total: int) {
    && pos <= |values| == |ranks|
    && (forall k | 0 <= k < pos :: values[k] == BatchAnswer(c, counts, ranks[k]))
    && (forall k | pos <= k < |ranks| :: values[k] == ranks[k] && total < ranks[k])
  }

  ghost predicate AscendingRanks(ranks: seq<int>) {
    Ascending(ranks) && forall k | 0 <= k < |ranks| :: ranks[k] >= 1
  }

  /** hdr_value_at_percentiles for ranks instead of percentiles: one pass over the slots, which
      overwrites the array of ranks with the answers. */
  method ValuesAtRanks(h: Histogram, values: array<int>)
    requires NonNegative(h.counts[..]) && values != h.counts
    requires AscendingRanks(values[..])
    modifies values
    ensures forall k | 0 <= k < values.Length :: values[k] == BatchAnswer(h.cfg, h.counts[..], old(values[k]))
  {
    ghost var ranks, counts := values[..], h.counts[..];
    var it := new Iterator(h);
    var total := 0;
    var pos: nat := 0;
    var more := it.AllValuesNext();
    while more && pos < values.Length
      invariant fresh(it) && it.h == h && it.Valid() && h.counts[..] == counts
      invariant 0 <= it.countsIndex && more == (it.countsIndex < |counts|)
      invariant total == Prefix(counts, if more then it.countsIndex else |counts|)
      invariant Progress(h.cfg, counts, ranks, values[..], pos, total)
      decreases |counts| - it.countsIndex
    {
      total := total + it.count;
      assert total == Prefix(counts, it.countsIndex + 1);
      pos := AnswerReached(h, values, pos, total, it.value, ranks, counts, it.countsIndex);
      more := it.AllValuesNext();
    }
    AllAnswered(h.cfg, counts, ranks, values[..], pos, total, more);
  }

  /** The inner loop: the ranks that the slot i reaches get its highest equivalent value. */
  method AnswerReached(h: Histogram, values: array<int>, start: nat, total: int, value: int,
                       ghost ranks: seq<int>, ghost counts: seq<int>, ghost i: nat)
    returns (pos: nat)
    requires NonNegative(counts) && AscendingRanks(ranks)
    requires i < |counts| && value == ValueAtIndex(h.cfg, i) && total == Prefix(counts, i + 1)
    requires Progress(h.cfg, counts, ranks, values[..], start, Prefix(counts, i))
    modifies values
    ensures Progress(h.cfg, counts, ranks, values[..], pos, total)
  {
    pos := start;
    while pos < values.Length && total >= values[pos]
      invariant Progress(h.cfg, counts, ranks, values[..], pos, Prefix(counts, i))
    {
      SlotAnswers(h.cfg, counts, values[pos], i);
      values[pos] := HighestEquivalent(h.cfg, value);
      pos := pos + 1;
    }
  }

  lemma SlotAnswers(c: Config, counts: seq<int>, rank: int, i: nat)
    requires NonNegative(counts) && i < |counts| && Prefix(counts, i) < rank <= Prefix(counts, i + 1)
    ensures BatchAnswer(c, counts, rank) == HighestEquivalent(c, ValueAtIndex(c, i))
  {
    forall j | 0 < j <= i
      ensures Prefix(counts, j) < rank
    {
      PrefixMonotone(counts, j, i);
    }
    FirstReachingUnique(counts, rank, i);
    PrefixMonotone(counts, i + 1, |counts|);
  }

  lemma AllAnswered(c: Config, counts: seq<int>, ranks: seq<int>, values: seq<int>, pos: nat, total: int, more: bool)
    requires Progress(c, counts, ranks, values, pos, total)
    requires if more then pos == |values| else total == Sum(counts)
    ensures forall k | 0 <= k < |values| :: values[k] == BatchAnswer(c, counts, ranks[k])
  {
  }
}
