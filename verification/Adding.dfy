/** hdr_add: recording every slot in use of one histogram into another. */
module Adding {
  import opened BucketMath
  import opened Recording
  import opened Histograms
  import opened Iteration

  /** The target and the number of dropped values after the first n slots of a source, with
      configuration d and the given counts, have been added to s. */
  function Added(c: Config, s: State, d: Config, counts: seq<int>, n: nat): ((State, int))
    requires |s.counts| == c.countsLen && n <= |counts|
    ensures |Added(c, s, d, counts, n).0.counts| == c.countsLen
  {
    if n == 0 then (s, 0)
    else
      var (t, dropped) := Added(c, s, d, counts, n - 1);
      var r := Record(ValueAtIndex(d, n - 1), counts[n - 1]);
      if r.count == 0 then (t, dropped)
      else if Accepts(c, r.value) then (Recorded(c, t, r), dropped)
      else (t, dropped + r.count)
  }

  /** The target h and the dropped count after the first n slots of the source. */
  ghost predicate AddedSoFar(h: Histogram, dropped: int, s: State, d: Config, counts: seq<int>, n: nat)
    reads h, h.counts
  {
    && h.Valid() && |s.counts| == h.cfg.countsLen && n <= |counts|
    && (h.State(), dropped) == Added(h.cfg, s, d, counts, n)
  }

  /** hdr_add, for two distinct histograms. */
  method Add(h: Histogram, from: Histogram) returns (dropped: int)
    requires h != from && h.counts != from.counts
    requires h.Valid() && from.Valid() && NonNegative(from.counts[..]) && from.totalCount == Sum(from.counts[..])
    modifies h, h.counts
    ensures h.Valid()
    ensures (h.State(), dropped) == Added(h.cfg, old(h.State()), from.cfg, from.counts[..], from.counts.Length)
  {
    ghost var s := h.State();
    dropped := 0;
    var it := new Iterator(from);
    var more := NextInUse(h, it, dropped, s);
    while more
      invariant fresh(it) && it.h == from && it.Valid() && it.Unchanged()
      invariant more ==> 0 <= it.countsIndex < from.counts.Length && from.counts[it.countsIndex] > 0
      invariant AddedSoFar(h, dropped, s, from.cfg, from.counts[..],
                              if more then it.countsIndex else from.counts.Length)
      decreases more, from.counts.Length - it.countsIndex
    {
      dropped := AddCurrent(h, it, dropped, s);
      more := NextInUse(h, it, dropped, s);
    }
  }

  /** hdr_iter_next: the slots it passes over add nothing. */
  method NextInUse(h: Histogram, it: Iterator, ghost dropped: int, ghost s: State) returns (more: bool)
    requires it.Valid() && it.Unchanged() && it.countsIndex < it.h.counts.Length
    requires AddedSoFar(h, dropped, s, it.h.cfg, it.h.counts[..], it.countsIndex + 1)
    modifies it
    ensures it.Valid()
    ensures more ==> old(it.countsIndex) < it.countsIndex < it.h.counts.Length && it.h.counts[it.countsIndex] > 0
    ensures AddedSoFar(h, dropped, s, it.h.cfg, it.h.counts[..], if more then it.countsIndex else it.h.counts.Length)
  {
    ghost var n := it.countsIndex + 1;
    more := it.RecordedNext();
    NothingToAdd(h.cfg, s, it.h.cfg, it.h.counts[..], n, if more then it.countsIndex else it.h.counts.Length);
  }

  /** The body of the loop of hdr_add. */
  method AddCurrent(h: Histogram, it: Iterator, soFar: int, ghost s: State) returns (dropped: int)
    requires h != it.h && h.counts != it.h.counts
    requires it.Valid() && 0 <= it.countsIndex < it.h.counts.Length && it.h.counts[it.countsIndex] > 0
    requires AddedSoFar(h, soFar, s, it.h.cfg, it.h.counts[..], it.countsIndex)
    modifies h, h.counts
    ensures AddedSoFar(h, dropped, s, it.h.cfg, old(it.h.counts[..]), it.countsIndex + 1)
  {
    dropped := soFar;
    OneMoreSlot(h.cfg, s, it.h.cfg, it.h.counts[..], it.countsIndex);
    var ok := h.RecordValues(it.value, it.count);
    if !ok {
      dropped := dropped + it.count;
    }
  }

  lemma OneMoreSlot(c: Config, s: State, d: Config, counts: seq<int>, n: nat)
    requires |s.counts| == c.countsLen && n < |counts| && counts[n] > 0
    ensures var (t, dropped) := Added(c, s, d, counts, n);
      var r := Record(ValueAtIndex(d, n), counts[n]);
      Added(c, s, d, counts, n + 1)
      == if Accepts(c, r.value) then (Recorded(c, t, r), dropped) else (t, dropped + r.count)
  {
  }

  lemma {:induction false} NothingToAdd(c: Config, s: State, d: Config, counts: seq<int>, m: nat, n: nat)
    requires |s.counts| == c.countsLen && m <= n <= |counts| && NoneInUse(counts, m, n)
    ensures Added(c, s, d, counts, n) == Added(c, s, d, counts, m)
  {
    if m < n { NothingToAdd(c, s, d, counts, m, n - 1); }
  }

  /** Nothing is lost or invented: what the target gains and what is dropped are the source's
      total. */
  lemma {:induction false} AddConserves(c: Config, s: State, d: Config, counts: seq<int>, n: nat)
    requires |s.counts| == c.countsLen && n <= |counts|
    ensures var (t, dropped) := Added(c, s, d, counts, n);
      t.total + dropped == s.total + Prefix(counts, n)
  {
    if n != 0 { AddConserves(c, s, d, counts, n - 1); }
  }

  /** Between equal configurations, from a source reached by recording, slots add pointwise and
      nothing is dropped. */
  lemma {:induction false} EqualConfigsAddPointwise(c: Config, s: State, from: State, n: nat)
    requires |s.counts| == |from.counts| == c.countsLen && n <= c.countsLen
    requires NonNegative(from.counts) && WithinRange(c, from)
    ensures var (t, dropped) := Added(c, s, c, from.counts, n);
      && dropped == 0
      && (forall i | 0 <= i < c.countsLen :: t.counts[i] == s.counts[i] + if i < n then from.counts[i] else 0)
  {
    if n != 0 {
      EqualConfigsAddPointwise(c, s, from, n - 1);
      IndexOfValueAtIndex(c, n - 1);
    }
  }

  /** So it is from any source that records have filled, whatever the target holds. */
  lemma RecordedSourceAddsPointwise(c: Config, s: State, rs: seq<Record>)
    requires c.Sized() && |s.counts| == c.countsLen && forall r | r in rs :: r.count >= 0
    ensures var from := RecordedAll(c, EmptyState(c), rs);
      var (t, dropped) := Added(c, s, c, from.counts, c.countsLen);
      && dropped == 0 && t.total == s.total + from.total
      && (forall i | 0 <= i < c.countsLen :: t.counts[i] == s.counts[i] + from.counts[i])
  {
    var from := RecordedAll(c, EmptyState(c), rs);
    EmptyIsConsistent(c);
    RunKeepsBounded(c, EmptyState(c), rs);
    RunKeepsRange(c, EmptyState(c), rs);
    EqualConfigsAddPointwise(c, s, from, c.countsLen);
    AddConserves(c, s, c, from.counts, c.countsLen);
  }

  // ---------- between any two configurations ----------

  /** The source's slot k, of configuration d, goes to slot i of the target. */
  predicate GoesTo(c: Config, d: Config, k: nat, i: nat) {
    Accepts(c, ValueAtIndex(d, k)) && CountsIndexFor(c, ValueAtIndex(d, k)) == i
  }

  function SlotsGain(c: Config, d: Config, counts: seq<int>, i: nat, n: nat): int
    requires n <= |counts|
  {
    if n == 0 then 0 else SlotsGain(c, d, counts, i, n - 1) + if GoesTo(c, d, n - 1, i) then counts[n - 1] else 0
  }

  function SlotsLoss(c: Config, d: Config, counts: seq<int>, n: nat): int
    requires n <= |counts|
  {
    if n == 0 then 0
    else SlotsLoss(c, d, counts, n - 1) + if Accepts(c, ValueAtIndex(d, n - 1)) then 0 else counts[n - 1]
  }

  lemma {:induction false} AddedSlots(c: Config, s: State, d: Config, counts: seq<int>, n: nat)
    requires |s.counts| == c.countsLen && n <= |counts|
    ensures var (t, dropped) := Added(c, s, d, counts, n);
      && dropped == SlotsLoss(c, d, counts, n)
      && forall i | 0 <= i < c.countsLen :: t.counts[i] == s.counts[i] + SlotsGain(c, d, counts, i, n)
  {
    if n != 0 { AddedSlots(c, s, d, counts, n - 1); }
  }

  lemma {:induction false} SlotsUpdate(c: Config, d: Config, counts: seq<int>, k: nat, count: int, i: nat, n: nat)
    requires k < |counts| && n <= |counts|
    ensures var counts' := counts[k := counts[k] + count];
      && SlotsGain(c, d, counts', i, n)
         == SlotsGain(c, d, counts, i, n) + (if k < n && GoesTo(c, d, k, i) then count else 0)
      && SlotsLoss(c, d, counts', n)
         == SlotsLoss(c, d, counts, n) + (if k < n && !Accepts(c, ValueAtIndex(d, k)) then count else 0)
  {
    if n != 0 { SlotsUpdate(c, d, counts, k, count, i, n - 1); }
  }

  lemma {:induction false} NothingInEmpty(c: Config, d: Config, i: nat, n: nat)
    requires n <= d.countsLen
    ensures SlotsGain(c, d, EmptyState(d).counts, i, n) == 0 && SlotsLoss(c, d, EmptyState(d).counts, n) == 0
  {
    if n != 0 { NothingInEmpty(c, d, i, n - 1); }
  }

  /** What slot i of a target of configuration c gains from records made under configuration d: the
      counts of those whose lowest equivalent value is in range for the target and belongs there. */
  function GainOf(c: Config, d: Config, rs: seq<Record>, i: nat): int {
    if rs == [] then 0
    else
      var r := rs[|rs| - 1];
      GainOf(c, d, rs[..|rs| - 1], i)
      + if 0 <= r.value <= d.highest && LowestEquivalent(d, r.value) <= c.highest
           && CountsIndexFor(c, LowestEquivalent(d, r.value)) == i then r.count else 0
  }

  /** And what is dropped: the counts of those whose lowest equivalent value is out of range. */
  function LossOf(c: Config, d: Config, rs: seq<Record>): int {
    if rs == [] then 0
    else
      var r := rs[|rs| - 1];
      LossOf(c, d, rs[..|rs| - 1])
      + if 0 <= r.value <= d.highest && LowestEquivalent(d, r.value) > c.highest then r.count else 0
  }

  lemma {:induction false} SlotsOfRun(c: Config, d: Config, rs: seq<Record>, i: nat)
    requires c.Sized() && d.Sized()
    ensures var counts := RecordedAll(d, EmptyState(d), rs).counts;
      && SlotsGain(c, d, counts, i, d.countsLen) == GainOf(c, d, rs, i)
      && SlotsLoss(c, d, counts, d.countsLen) == LossOf(c, d, rs)
  {
    if rs == [] {
      NothingInEmpty(c, d, i, d.countsLen);
    } else {
      SlotsOfRun(c, d, rs[..|rs| - 1], i);
      SlotsOfRecord(c, d, RecordedAll(d, EmptyState(d), rs[..|rs| - 1]), rs[|rs| - 1], i);
    }
  }

  lemma SlotsOfRecord(c: Config, d: Config, s: State, r: Record, i: nat)
    requires c.Sized() && d.Sized() && |s.counts| == d.countsLen
    ensures var counts, inRange := Recorded(d, s, r).counts, 0 <= r.value <= d.highest;
      && SlotsGain(c, d, counts, i, d.countsLen) == SlotsGain(c, d, s.counts, i, d.countsLen)
         + (if inRange && LowestEquivalent(d, r.value) <= c.highest
               && CountsIndexFor(c, LowestEquivalent(d, r.value)) == i then r.count else 0)
      && SlotsLoss(c, d, counts, d.countsLen) == SlotsLoss(c, d, s.counts, d.countsLen)
         + (if inRange && LowestEquivalent(d, r.value) > c.highest then r.count else 0)
  {
    AcceptsIffInRange(d, r.value);
    if Accepts(d, r.value) {
      SlotOfValue(d, r.value);
      AcceptsIffInRange(c, LowestEquivalent(d, r.value));
      SlotsUpdate(c, d, s.counts, CountsIndexFor(d, r.value), r.count, i, d.countsLen);
    }
  }

  lemma {:induction false} SumOfRun(d: Config, rs: seq<Record>)
    ensures Prefix(RecordedAll(d, EmptyState(d), rs).counts, d.countsLen) == TotalSum(d, rs)
  {
    if rs == [] {
      SumOfZeros(d.countsLen, d.countsLen);
    } else {
      var s, r := RecordedAll(d, EmptyState(d), rs[..|rs| - 1]), rs[|rs| - 1];
      SumOfRun(d, rs[..|rs| - 1]);
      if Accepts(d, r.value) { PrefixUpdate(s.counts, CountsIndexFor(d, r.value), r.count, d.countsLen); }
    }
  }

  /** Adding what records have filled under one configuration to a histogram of any other: every
      record goes, with its lowest equivalent value, to the slot that this value has there, or is
      dropped when it is out of range there. */
  lemma AddAcrossConfigs(c: Config, s: State, d: Config, rs: seq<Record>)
    requires c.Sized() && d.Sized() && |s.counts| == c.countsLen
    ensures var from := RecordedAll(d, EmptyState(d), rs);
      var (t, dropped) := Added(c, s, d, from.counts, d.countsLen);
      && dropped == LossOf(c, d, rs)
      && t.total == s.total + TotalSum(d, rs) - LossOf(c, d, rs)
      && forall i | 0 <= i < c.countsLen :: t.counts[i] == s.counts[i] + GainOf(c, d, rs, i)
  {
    var from := RecordedAll(d, EmptyState(d), rs);
    AddedSlots(c, s, d, from.counts, d.countsLen);
    AddConserves(c, s, d, from.counts, d.countsLen);
    SumOfRun(d, rs);
    SlotsOfRun(c, d, rs, 0);
    forall i | 0 <= i < c.countsLen
      ensures SlotsGain(c, d, from.counts, i, d.countsLen) == GainOf(c, d, rs, i)
    {
      SlotsOfRun(c, d, rs, i);
    }
  }

  /** A target stays consistent whatever is added to it, and within its range. */
  lemma {:induction false} AddKeepsConsistent(c: Config, s: State, d: Config, counts: seq<int>, n: nat)
    requires Consistent(c, s) && n <= |counts| && NonNegative(counts)
    ensures Consistent(c, Added(c, s, d, counts, n).0)
    ensures WithinRange(c, s) ==> WithinRange(c, Added(c, s, d, counts, n).0)
  {
    if n != 0 {
      AddKeepsConsistent(c, s, d, counts, n - 1);
      var t, r := Added(c, s, d, counts, n - 1).0, Record(ValueAtIndex(d, n - 1), counts[n - 1]);
      if r.count != 0 { OneKeepsConsistent(c, t, r); }
    }
  }

  lemma OneKeepsConsistent(c: Config, t: State, r: Record)
    requires |t.counts| == c.countsLen && r.count > 0
    ensures Consistent(c, t) ==> Consistent(c, Recorded(c, t, r))
    ensures WithinRange(c, t) ==> WithinRange(c, Recorded(c, t, r))
  {
    if Consistent(c, t) { RecordKeepsConsistent(c, t, r); }
    if WithinRange(c, t) && Accepts(c, r.value) { RangeStep(c, t, r); }
  }
}
