/** Whole runs of the linear and the logarithmic iterator on a histogram that does not change: what
    the steps report, and exactly when that is what the iterators promise. */
module LevelRuns {
  import opened Bits
  import opened BucketMath
  import opened BucketConfig
  import opened Recording
  import opened Levels

  /** A histogram and the arguments of hdr_iter_linear_init or hdr_iter_log_init.  For the linear
      iterator the first level is the width. */
  datatype Walk = Walk(c: Config, counts: seq<int>, stride: Stride, first: Int64)
  {
    ghost predicate Valid() {
      && c.Valid() && |counts| == c.countsLen && NonNegative(counts)
      && stride.Valid() && Pow2(c.unitMagnitude) <= first
    }

    /** The k-th level, without a limit on its size. */
    function Level(k: nat): int { stride.Level(first, k) }
  }

  // ---------- runs ----------

  /** The iterator after n calls; a call that ends changes nothing. */
  function After(w: Walk, n: nat): (cur: Cursor)
    requires w.c.halfMagnitude <= 61
    ensures -1 <= cur.index <= |w.counts|
  {
    if n == 0 then Cursor(-1, w.first)
    else
      var cur := After(w, n - 1);
      if cur.index < |w.counts| then AdvanceStays(w.c, |w.counts|, w.stride, cur); Call(w.c, w.counts, w.stride, cur).1
      else Call(w.c, w.counts, w.stride, cur).1
  }

  /** How call n ends, counting from 0. */
  function OutcomeAt(w: Walk, n: nat): Outcome
    requires w.c.halfMagnitude <= 61
  {
    Call(w.c, w.counts, w.stride, After(w, n)).0
  }

  /** cumulative_count after n calls. */
  function Counted(w: Walk, n: nat): int
    requires w.c.halfMagnitude <= 61
  {
    CumulativeAt(w.counts, After(w, n).index)
  }

  /** The number of values in the slots that start at or below v. */
  function CountStartingUpTo(c: Config, counts: seq<int>, v: int, n: nat): int
    requires n <= |counts|
  {
    if n == 0 then 0
    else CountStartingUpTo(c, counts, v, n - 1) + if ValueAtIndex(c, n - 1) <= v then counts[n - 1] else 0
  }

  lemma {:induction false} CountStartingUpToIsPrefix(c: Config, counts: seq<int>, v: nat, n: nat)
    requires n <= |counts|
    ensures CountStartingUpTo(c, counts, v, n)
         == Prefix(counts, if n <= CountsIndexFor(c, v) then n else CountsIndexFor(c, v) + 1)
  {
    if n != 0 {
      CountStartingUpToIsPrefix(c, counts, v, n - 1);
      IndexBelowIff(c, v, n - 1);
    }
  }

  /** What step k has to count: the values in all slots that start at or below the lowest equivalent
      of the k-th level. */
  function CountUpTo(c: Config, counts: seq<int>, level: nat): int {
    CountStartingUpTo(c, counts, LowestEquivalent(c, level), |counts|)
  }

  lemma CountOfLevel(c: Config, counts: seq<int>, level: nat)
    ensures CountUpTo(c, counts, level)
         == Prefix(counts, if CountsIndexFor(c, level) < |counts| then CountsIndexFor(c, level) + 1 else |counts|)
  {
    SlotOfValue(c, level);
    IndexOfValueAtIndex(c, CountsIndexFor(c, level));
    CountStartingUpToIsPrefix(c, counts, LowestEquivalent(c, level), |counts|);
  }

  // ---------- what a run promises ----------

  /** Call k ends the run, or has counted the values up to the k-th level and, unless it went past
      the last slot, has reported this level. */
  ghost predicate StepRight(w: Walk, k: nat)
    requires w.Valid()
  {
    match OutcomeAt(w, k)
    case Ended => true
    case Reported(to) => to == w.Level(k) && CountsTo(w, k)
    case PastEnd => CountsTo(w, k)
  }

  ghost predicate CountsTo(w: Walk, k: nat)
    requires w.Valid()
  {
    w.Level(k) >= 0 && Counted(w, k + 1) == CountUpTo(w.c, w.counts, w.Level(k))
  }

  /** The run ends, and every step of it is right. */
  ghost predicate Right(w: Walk)
    requires w.Valid()
  {
    && (exists n: nat :: OutcomeAt(w, n).Ended?)
    && (forall k: nat :: StepRight(w, k))
  }

  // ---------- when it keeps the promise ----------

  /** The slot that the k-th level starts from. */
  function From(w: Walk, k: nat): (i: int)
    requires w.Valid()
    ensures if k == 0 then i == -1 else i >= 0
  {
    LevelPositive(w, if k == 0 then 0 else k - 1);
    if k == 0 then -1 else CountsIndexFor(w.c, w.Level(k - 1))
  }

  lemma LevelPositive(w: Walk, k: nat)
    requires w.Valid()
    ensures w.Level(k) >= w.first + k
  {
    w.stride.LevelGrows(w.first, k);
  }

  /** The k-th level has a slot, and the run gets as far as to report it. */
  predicate IsReported(w: Walk, k: nat)
    requires w.Valid()
  {
    LevelPositive(w, k);
    && CountsIndexFor(w.c, w.Level(k)) < |w.counts|
    && (k > 0 ==> IsReported(w, k - 1))
    && Due(w.c, w.counts, From(w, k), w.Level(k))
  }

  /** What becomes of a level that does not fit int64 would be reported next. */
  predicate Intrudes(w: Walk, k: nat)
    requires w.Valid()
  {
    var wrapped := Wrap64(w.Level(k));
    && Due(w.c, w.counts, From(w, k), wrapped)
    && (wrapped < 0 || CountsIndexFor(w.c, wrapped) < |w.counts|)
  }

  /** Behind every level that is reported the next one fits int64, or what becomes of it is not
      reported. */
  ghost predicate NoWrappedLevel(w: Walk)
    requires w.Valid()
  {
    forall k: nat | IsReported(w, k) :: w.Level(k + 1) <= INT64_MAX || !Intrudes(w, k + 1)
  }

  // ---------- levels and slots ----------

  /** Levels have slots past the first, in their order. */
  lemma LevelSlot(w: Walk, k: nat)
    requires w.Valid()
    ensures w.Level(k) > 0 && CountsIndexFor(w.c, w.Level(k)) > 0
    ensures From(w, k) <= CountsIndexFor(w.c, w.Level(k))
  {
    LevelPositive(w, k);
    FirstSlotPassed(w.c, w.Level(k));
    if k > 0 {
      LevelPositive(w, k - 1);
      w.stride.NextLevel(w.first, k - 1);
      w.stride.Grows(w.Level(k - 1));
      IndexMonotone(w.c, w.Level(k - 1), w.Level(k));
    }
  }

  /** A level with a slot fits int64. */
  lemma LevelWithSlotFits(w: Walk, level: nat)
    requires w.Valid() && CountsIndexFor(w.c, level) < |w.counts|
    ensures level <= INT64_MAX
  {
    EndOfSlots(w.c);
    IndexBelowIff(w.c, level, |w.counts|);
  }

  /** As long as levels are reported the iterator stands at the slot of the last one. */
  ghost predicate InRun(w: Walk, k: nat)
    requires w.Valid()
  {
    k > 0 ==> IsReported(w, k - 1)
  }

  lemma {:induction false} AfterLevels(w: Walk, k: nat)
    requires w.Valid() && InRun(w, k)
    ensures From(w, k) < |w.counts|
    ensures After(w, k) == Cursor(From(w, k), Wrap64(w.Level(k)))
  {
    if k == 0 {
      LevelSlot(w, 0);
    } else {
      AfterLevels(w, k - 1);
      LevelSlot(w, k - 1);
      LevelWithSlotFits(w, w.Level(k - 1));
      PositiveLevel(w.c, |w.counts|, w.stride, After(w, k - 1));
      w.stride.NextLevel(w.first, k - 1);
    }
  }

  /** A level that is reported is reported right. */
  lemma ReportedStep(w: Walk, k: nat)
    requires w.Valid() && IsReported(w, k)
    ensures OutcomeAt(w, k) == Reported(w.Level(k)) && StepRight(w, k) && InRun(w, k + 1)
  {
    LevelSlot(w, k);
    LevelWithSlotFits(w, w.Level(k));
    AfterLevels(w, k);
    ReportedCall(w, k, CountsIndexFor(w.c, w.Level(k)));
    CountOfLevel(w.c, w.counts, w.Level(k));
  }

  lemma ReportedCall(w: Walk, k: nat, slot: nat)
    requires w.Valid() && IsReported(w, k) && 0 < w.Level(k) <= INT64_MAX && slot == CountsIndexFor(w.c, w.Level(k)) > 0
    requires After(w, k) == Cursor(From(w, k), w.Level(k)) && From(w, k) <= slot < |w.counts|
    ensures OutcomeAt(w, k) == Reported(w.Level(k)) && After(w, k + 1).index == slot
  {
    PositiveLevel(w.c, |w.counts|, w.stride, After(w, k));
  }

  /** A level beyond the last slot ends the run, after a last step if that is due. */
  lemma StepBeyond(w: Walk, k: nat, level: nat)
    requires w.Valid() && After(w, k) == Cursor(From(w, k), level) && From(w, k) < |w.counts|
    requires CountsIndexFor(w.c, level) >= |w.counts|
    requires w.Level(k) >= 0 && CountsIndexFor(w.c, w.Level(k)) >= |w.counts|
    ensures StepRight(w, k)
    ensures OutcomeAt(w, k).Ended? || OutcomeAt(w, k + 1).Ended?
  {
    LevelSlot(w, k);
    if Due(w.c, w.counts, From(w, k), level) {
      PositiveLevel(w.c, |w.counts|, w.stride, After(w, k));
      CountOfLevel(w.c, w.counts, w.Level(k));
    }
  }

  /** A step that is not due ends the run. */
  lemma StepNotDue(w: Walk, k: nat)
    requires w.Valid() && !Due(w.c, w.counts, After(w, k).index, After(w, k).level)
    ensures OutcomeAt(w, k).Ended?
  {
  }

  /** A level too large for int64 has no slot. */
  lemma WrappedLevelHasNoSlot(w: Walk, level: nat)
    requires w.Valid() && level > INT64_MAX
    ensures CountsIndexFor(w.c, level) >= |w.counts|
  {
    if CountsIndexFor(w.c, level) < |w.counts| { LevelWithSlotFits(w, level); }
  }

  /** Where no level is reported any more the run ends, at once or after one right step. */
  lemma LastStep(w: Walk, k: nat)
    requires w.Valid() && InRun(w, k) && !IsReported(w, k)
    requires w.Level(k) <= INT64_MAX || !Intrudes(w, k)
    ensures StepRight(w, k)
    ensures OutcomeAt(w, k).Ended? || OutcomeAt(w, k + 1).Ended?
  {
    AfterLevels(w, k);
    LevelSlot(w, k);
    var level := After(w, k).level;
    if Due(w.c, w.counts, From(w, k), level) {
      if w.Level(k) > INT64_MAX { WrappedLevelHasNoSlot(w, w.Level(k)); }
      StepBeyond(w, k, level);
    } else {
      StepNotDue(w, k);
    }
  }

  lemma FirstLevelFits(w: Walk)
    ensures w.Level(0) <= INT64_MAX
  {
  }

  lemma StaysEnded(w: Walk, k: nat)
    requires w.c.halfMagnitude <= 61 && OutcomeAt(w, k).Ended?
    ensures OutcomeAt(w, k + 1).Ended?
  {
    if After(w, k).index < |w.counts| { AdvanceStays(w.c, |w.counts|, w.stride, After(w, k)); }
  }

  /** Without wrapped levels a run reports level after level until it ends. */
  lemma {:induction false} Settled(w: Walk, k: nat)
    requires w.Valid() && NoWrappedLevel(w)
    ensures InRun(w, k) || OutcomeAt(w, k).Ended?
    ensures StepRight(w, k)
  {
    if k > 0 {
      Settled(w, k - 1);
      if OutcomeAt(w, k - 1).Ended? {
        StaysEnded(w, k - 1);
      } else if !IsReported(w, k - 1) {
        SettledStep(w, k - 1);
      }
    }
    if InRun(w, k) { SettledStep(w, k); }
  }

  lemma SettledStep(w: Walk, k: nat)
    requires w.Valid() && NoWrappedLevel(w) && InRun(w, k)
    ensures StepRight(w, k)
    ensures IsReported(w, k) || OutcomeAt(w, k).Ended? || OutcomeAt(w, k + 1).Ended?
  {
    if IsReported(w, k) {
      ReportedStep(w, k);
    } else {
      if k == 0 { FirstLevelFits(w); }
      LastStep(w, k);
    }
  }

  /** After more calls than there are int64 values no level has a slot any more. */
  lemma RunEnds(w: Walk)
    requires w.Valid() && NoWrappedLevel(w)
    ensures OutcomeAt(w, INT64_MAX + 1).Ended?
  {
    var n := INT64_MAX + 1;
    Settled(w, n);
    if InRun(w, n) {
      LevelPositive(w, n - 1);
      LevelWithSlotFits(w, w.Level(n - 1));
    }
  }

  /** Unless a wrapped level is reported, a step is taken exactly when there is something to count
      beyond the level before, or the level lies in the same slot as that and the slot ends within
      int64. */
  lemma StepTakenIff(w: Walk, k: nat)
    requires w.Valid() && NoWrappedLevel(w) && (k > 0 ==> !OutcomeAt(w, k - 1).Ended?)
    ensures !OutcomeAt(w, k).Ended? <==>
      if k == 0 then Sum(w.counts) > 0
      else
        && w.Level(k - 1) >= 0 && w.Level(k) >= 0
        && var slot := CountsIndexFor(w.c, w.Level(k - 1));
           && slot < |w.counts|
           && (CountUpTo(w.c, w.counts, w.Level(k - 1)) < Sum(w.counts)
               || (CountsIndexFor(w.c, w.Level(k)) == slot && ValueAtIndex(w.c, slot + 1) <= INT64_MAX))
  {
    if k == 0 {
      FirstStepIff(w);
    } else {
      LevelSlot(w, k - 1);
      LevelSlot(w, k);
      LaterStepIff(w, k, CountsIndexFor(w.c, w.Level(k - 1)));
    }
  }

  lemma LaterStepIff(w: Walk, k: nat, slot: nat)
    requires w.Valid() && NoWrappedLevel(w) && k > 0 && !OutcomeAt(w, k - 1).Ended?
    requires w.Level(k - 1) >= 0 && w.Level(k) >= 0 && slot == CountsIndexFor(w.c, w.Level(k - 1))
    ensures !OutcomeAt(w, k).Ended? <==>
      && slot < |w.counts|
      && (CountUpTo(w.c, w.counts, w.Level(k - 1)) < Sum(w.counts)
          || (CountsIndexFor(w.c, w.Level(k)) == slot && ValueAtIndex(w.c, slot + 1) <= INT64_MAX))
  {
    if IsReported(w, k - 1) {
      CountedUpTo(w, w.Level(k - 1), slot);
      StepDueIff(w, k, slot);
    } else {
      PastTheSlots(w, k - 1);
    }
  }

  lemma CountedUpTo(w: Walk, level: nat, slot: nat)
    requires slot == CountsIndexFor(w.c, level) < |w.counts|
    ensures CountUpTo(w.c, w.counts, level) == CumulativeAt(w.counts, slot)
  {
    CountOfLevel(w.c, w.counts, level);
  }

  lemma FirstStepIff(w: Walk)
    requires w.Valid()
    ensures !OutcomeAt(w, 0).Ended? <==> Sum(w.counts) > 0
  {
    ZeroHasFirstSlot(w.c);
    EndIsPositive(w.c);
    OutcomeIsDue(w, 0);
  }

  /** The next slot starts above a level exactly when that lies in a slot before, and the next one
      starts within int64. */
  lemma PeekIff(c: Config, i: nat, level: nat)
    requires c.halfMagnitude <= 61 && ValueAtIndex(c, i) <= INT64_MAX + 1
    ensures Peek64(c, i) > Lowest64(c, level) <==> ValueAtIndex(c, i) <= INT64_MAX && CountsIndexFor(c, level) < i
  {
    PeekAt(c, i);
    StartsAboveIff(c, i, level);
  }

  lemma PeekAt(c: Config, i: nat)
    requires ValueAtIndex(c, i) <= INT64_MAX + 1
    ensures Peek64(c, i) == if ValueAtIndex(c, i) <= INT64_MAX then ValueAtIndex(c, i) else INT64_MIN
  {
  }

  lemma StartsAboveIff(c: Config, i: nat, level: nat)
    ensures ValueAtIndex(c, i) > LowestEquivalent(c, level) <==> CountsIndexFor(c, level) < i
  {
    IndexBelowIff(c, LowestEquivalent(c, level), i);
    SlotOfValue(c, level);
    IndexOfValueAtIndex(c, CountsIndexFor(c, level));
  }

  lemma StepDueIff(w: Walk, k: nat, slot: nat)
    requires w.Valid() && NoWrappedLevel(w) && k > 0 && IsReported(w, k - 1)
    requires w.Level(k - 1) >= 0 && w.Level(k) >= 0 && slot == CountsIndexFor(w.c, w.Level(k - 1))
    ensures slot < |w.counts|
    ensures !OutcomeAt(w, k).Ended? <==>
      || CumulativeAt(w.counts, slot) < Sum(w.counts)
      || (CountsIndexFor(w.c, w.Level(k)) == slot && ValueAtIndex(w.c, slot + 1) <= INT64_MAX)
  {
    AfterLevels(w, k);
    LevelSlot(w, k);
    OutcomeIsDue(w, k);
    if w.Level(k) <= INT64_MAX {
      DueNext(w, slot, w.Level(k));
    } else {
      WrappedLevelHasNoSlot(w, w.Level(k));
      DueWrapped(w, slot, Wrap64(w.Level(k)));
    }
  }

  lemma NextStart(w: Walk, slot: nat)
    requires w.Valid() && slot < |w.counts|
    ensures ValueAtIndex(w.c, slot + 1) <= INT64_MAX + 1
  {
    EndOfSlots(w.c);
    if slot + 1 < |w.counts| { ValueAtIndexIncreasing(w.c, slot + 1, |w.counts|); }
  }

  lemma DueNext(w: Walk, slot: nat, level: nat)
    requires w.Valid() && slot < |w.counts| && slot <= CountsIndexFor(w.c, level)
    ensures Due(w.c, w.counts, slot, level) <==>
      || CumulativeAt(w.counts, slot) < Sum(w.counts)
      || (CountsIndexFor(w.c, level) == slot && ValueAtIndex(w.c, slot + 1) <= INT64_MAX)
  {
    NextStart(w, slot);
    PeekIff(w.c, slot + 1, level);
  }

  /** A wrapped level that is not reported makes no step due. */
  lemma DueWrapped(w: Walk, slot: nat, level: Int64)
    requires w.Valid() && slot < |w.counts|
    requires Due(w.c, w.counts, slot, level) ==> level >= 0 && CountsIndexFor(w.c, level) >= |w.counts|
    ensures Due(w.c, w.counts, slot, level) <==> CumulativeAt(w.counts, slot) < Sum(w.counts)
  {
    if Due(w.c, w.counts, slot, level) { DueNext(w, slot, level); }
  }

  lemma OutcomeIsDue(w: Walk, k: nat)
    requires w.Valid() && After(w, k).index < |w.counts|
    ensures OutcomeAt(w, k).Ended? <==> !Due(w.c, w.counts, After(w, k).index, After(w, k).level)
  {
    AdvanceStays(w.c, |w.counts|, w.stride, After(w, k));
  }

  /** A step that is taken without reporting its level has gone past the last slot. */
  lemma PastTheSlots(w: Walk, k: nat)
    requires w.Valid() && NoWrappedLevel(w) && !OutcomeAt(w, k).Ended? && !IsReported(w, k) && w.Level(k) >= 0
    ensures CountsIndexFor(w.c, w.Level(k)) >= |w.counts| && OutcomeAt(w, k + 1).Ended?
  {
    Settled(w, k);
    SettledStep(w, k);
    AfterLevels(w, k);
    if w.Level(k) > INT64_MAX { WrappedLevelHasNoSlot(w, w.Level(k)); } else { OutcomeIsDue(w, k); }
  }

  /** A wrapped level that is reported is not the level promised. */
  lemma WrappedLevelReported(w: Walk, k: nat)
    requires w.Valid() && IsReported(w, k) && w.Level(k + 1) > INT64_MAX && Intrudes(w, k + 1)
    ensures !StepRight(w, k + 1)
  {
    AfterLevels(w, k + 1);
    LevelSlot(w, k + 1);
    var cur := After(w, k + 1);
    if cur.level < 0 {
      NegativeLevel(w.c, |w.counts|, w.stride, cur);
    } else if CountsIndexFor(w.c, cur.level) == 0 {
      LevelInFirstSlot(w.c, |w.counts|, w.stride, cur);
    } else {
      PositiveLevel(w.c, |w.counts|, w.stride, cur);
    }
  }

  /** A run ends and counts what it promises exactly when no level that has wrapped around is
      reported. */
  lemma RightIffNoWrappedLevel(w: Walk)
    requires w.Valid()
    ensures Right(w) <==> NoWrappedLevel(w)
  {
    if NoWrappedLevel(w) {
      RunEnds(w);
      forall k: nat
        ensures StepRight(w, k)
      {
        Settled(w, k);
      }
    } else {
      var k: nat :| IsReported(w, k) && w.Level(k + 1) > INT64_MAX && Intrudes(w, k + 1);
      WrappedLevelReported(w, k);
    }
  }

  // ---------- checks for callers ----------

  /** No level wraps around when the next level of the last value with a slot fits int64. */
  lemma RoomAboveTheSlots(w: Walk)
    requires w.Valid() && w.stride.Next(ValueAtIndex(w.c, |w.counts|) - 1) <= INT64_MAX
    ensures NoWrappedLevel(w)
  {
    forall k: nat | IsReported(w, k)
      ensures w.Level(k + 1) <= INT64_MAX
    {
      LevelPositive(w, k);
      IndexBelowIff(w.c, w.Level(k), |w.counts|);
      w.stride.NextLevel(w.first, k);
      w.stride.NextMonotone(w.Level(k), ValueAtIndex(w.c, |w.counts|) - 1);
    }
  }

  /** A trackable range and a width below 2^62 are always enough. */
  lemma LinearBelow62(w: Walk)
    requires w.Valid() && w.stride.Linear?
    requires w.c.highest < 0x4000_0000_0000_0000 && w.stride.width <= 0x4000_0000_0000_0000
    ensures NoWrappedLevel(w) && Right(w)
  {
    Pow2At62();
    SlotValuesFitInt64(w.c, |w.counts|, 62);
    EndIsPositive(w.c);
    RoomAboveTheSlots(w);
    RightIffNoWrappedLevel(w);
  }

  lemma EndIsPositive(c: Config)
    requires c.Sized()
    ensures ValueAtIndex(c, c.countsLen) > 0
  {
    InRangeHasSlot(c, 0);
    ZeroHasFirstSlot(c);
    ValueAtIndexIncreasing(c, 0, c.countsLen);
  }

  /** For the linear iterator, a width that leads out of int64 does harm unless the last level
      reported is in the last slot and that slot ends at 2^63. */
  lemma LinearIntrudes(w: Walk, k: nat)
    requires w.Valid() && w.stride.Linear? && IsReported(w, k) && w.Level(k + 1) > INT64_MAX
    ensures var slot: nat := From(w, k + 1);
      Intrudes(w, k + 1) <==> CumulativeAt(w.counts, slot) < Sum(w.counts) || ValueAtIndex(w.c, slot + 1) <= INT64_MAX
  {
    LevelPositive(w, k);
    LevelWithSlotFits(w, w.Level(k));
    w.stride.NextLevel(w.first, k);
    WrapsBelowZero(w.Level(k) + w.stride.width);
    IntrudesBelowZero(w, k, CountsIndexFor(w.c, w.Level(k)));
  }

  lemma WrapsBelowZero(x: int)
    requires INT64_MAX < x <= 2 * INT64_MAX
    ensures Wrap64(x) < 0
  {
  }

  lemma IntrudesBelowZero(w: Walk, k: nat, slot: nat)
    requires w.Valid() && slot < |w.counts| && From(w, k + 1) == slot && Wrap64(w.Level(k + 1)) < 0
    ensures Intrudes(w, k + 1)
      <==> CumulativeAt(w.counts, slot) < Sum(w.counts) || ValueAtIndex(w.c, slot + 1) <= INT64_MAX
  {
    DueBelowZero(w, slot, Wrap64(w.Level(k + 1)));
  }

  lemma DueBelowZero(w: Walk, slot: nat, level: Int64)
    requires w.Valid() && slot < |w.counts| && level < 0
    ensures Due(w.c, w.counts, slot, level)
      <==> CumulativeAt(w.counts, slot) < Sum(w.counts) || ValueAtIndex(w.c, slot + 1) <= INT64_MAX
  {
    EndOfSlots(w.c);
    if slot + 1 < |w.counts| { ValueAtIndexIncreasing(w.c, slot + 1, |w.counts|); }
    PeekAboveNegative(w.c, slot + 1, level);
  }

  lemma PeekAboveNegative(c: Config, i: nat, level: Int64)
    requires c.halfMagnitude <= 61 && level < 0 && ValueAtIndex(c, i) <= INT64_MAX + 1
    ensures Peek64(c, i) > Lowest64(c, level) <==> ValueAtIndex(c, i) <= INT64_MAX
  {
    Lowest64Negative(c, level);
    Lowest64AboveMin(c, level);
  }

  // ---------- a run that never ends ----------

  /** Reporting in powers of eight on a range up to 2^61: the levels lead to 2^60, then out of
      int64 to its least value, and from there to 0, which is reported again and again. */
  ghost predicate PowersOf8(w: Walk) {
    && w.Valid() && w.stride == Logarithmic(8) && w.first == 1
    && w.c.lowest == 1 && w.c.highest == 0x2000_0000_0000_0000
    && w.counts == Recorded(w.c, EmptyState(w.c), Record(w.c.highest, 1)).counts
  }

  lemma RangeUpTo61() returns (c: Config)
    ensures c.Valid() && c.lowest == 1 && c.highest == 0x2000_0000_0000_0000
  {
    Pow2Of61(61);
    MagnitudeTable(1);
    assert BitLength(1) == 1;
    c := Config(1, 0x2000_0000_0000_0000, 1, 0, 4, 58, 59 * Pow2(4));
  }

  /** Such a run exists. */
  lemma PowersOf8Exist() returns (w: Walk)
    ensures PowersOf8(w)
  {
    var c := RangeUpTo61();
    AcceptsIffInRange(c, c.highest);
    UnitOfOne(c);
    w := Walk(c, Recorded(c, EmptyState(c), Record(c.highest, 1)).counts, Logarithmic(8), 1);
  }

  lemma {:induction false} PowerOf8(w: Walk, k: nat)
    requires w.stride == Logarithmic(8) && w.first == 1
    ensures w.Level(k) == Pow2(3 * k)
  {
    w.stride.NextLevel(w.first, if k == 0 then 0 else k - 1);
    if k > 0 {
      PowerOf8(w, k - 1);
      Pow2Add(3 * (k - 1), 3);
      assert Pow2(3) == 8;
    }
  }

  /** The one value recorded lies beyond all slots of smaller values. */
  lemma LeftBelowTop(w: Walk, value: nat)
    requires PowersOf8(w) && value < w.c.highest
    ensures CountsIndexFor(w.c, value) < |w.counts|
    ensures CumulativeAt(w.counts, CountsIndexFor(w.c, value)) < Sum(w.counts) && 0 < Sum(w.counts)
  {
    var top := CountsIndexFor(w.c, w.c.highest);
    TopStartsSlot(w);
    AcceptsIffInRange(w.c, w.c.highest);
    InRangeHasSlot(w.c, w.c.highest);
    IndexBelowIff(w.c, value, top);
    OneInTop(w, CountsIndexFor(w.c, value) + 1);
    OneInTop(w, |w.counts|);
  }

  lemma OneInTop(w: Walk, n: nat)
    requires PowersOf8(w) && n <= |w.counts|
    ensures Prefix(w.counts, n) == if CountsIndexFor(w.c, w.c.highest) < n then 1 else 0
  {
    AcceptsIffInRange(w.c, w.c.highest);
    SumOfZeros(n, w.c.countsLen);
    PrefixUpdate(EmptyState(w.c).counts, CountsIndexFor(w.c, w.c.highest), 1, n);
  }

  lemma TopStartsSlot(w: Walk)
    requires PowersOf8(w)
    ensures ValueAtIndex(w.c, CountsIndexFor(w.c, w.c.highest)) == w.c.highest
  {
    UnitOfOne(w.c);
    Pow2Of61(61);
    PowerStartsSlot(w.c, 61);
  }

  /** With units of 1, a power of two above the first bucket's lower half starts a slot. */
  lemma PowerStartsSlot(c: Config, k: nat)
    requires c.unitMagnitude == 0 && c.halfMagnitude <= k
    ensures ValueAtIndex(c, CountsIndexFor(c, Pow2(k))) == Pow2(k)
  {
    var slot := BucketSlot(c, k - c.halfMagnitude, k);
    StartOfOwnSlot(c, slot, Pow2(k));
  }

  lemma BucketSlot(c: Config, bucket: nat, k: nat) returns (slot: nat)
    requires k == c.unitMagnitude + c.halfMagnitude + bucket
    ensures ValueAtIndex(c, slot) == Pow2(k)
  {
    StartOfBucket(c, bucket);
    slot := (bucket + 1) * c.HalfCount();
  }

  lemma StartOfOwnSlot(c: Config, slot: nat, value: nat)
    requires ValueAtIndex(c, slot) == value
    ensures ValueAtIndex(c, CountsIndexFor(c, value)) == value
  {
    IndexOfValueAtIndex(c, slot);
  }

  lemma Pow2Of61(k: nat)
    requires k == 61
    ensures Pow2(k) == 0x2000_0000_0000_0000 && Pow2(k - 1) == 0x1000_0000_0000_0000
  {
    Pow2At62();
    assert Pow2(k + 1) == 2 * Pow2(k) && Pow2(k) == 2 * Pow2(k - 1);
  }

  lemma UnitOfOne(c: Config)
    requires c.Valid() && c.lowest == 1
    ensures c.unitMagnitude == 0 && c.halfMagnitude <= 61
  {
    assert BitLength(1) == 1;
  }

  lemma {:induction false} ReportedUpTo60(w: Walk, k: nat)
    requires PowersOf8(w) && k <= 20
    ensures IsReported(w, k)
  {
    LevelPositive(w, k);
    PowerBelowTop(w, k);
    LeftBelowTop(w, w.Level(k));
    if k > 0 {
      ReportedUpTo60(w, k - 1);
      PowerBelowTop(w, k - 1);
      LeftBelowTop(w, w.Level(k - 1));
    }
  }

  lemma PowerBelowTop(w: Walk, k: nat)
    requires PowersOf8(w) && k <= 20
    ensures 0 < w.Level(k) < w.c.highest
  {
    PowerOf8(w, k);
    Pow2Of61(61);
    Pow2Increasing(3 * k, 61);
  }

  /** The slot of 2^60, where the iterator comes to a stand. */
  ghost predicate Stuck(w: Walk, cur: Cursor)
    requires PowersOf8(w)
  {
    && cur.index == CountsIndexFor(w.c, 0x1000_0000_0000_0000) && cur.index < |w.counts|
    && CumulativeAt(w.counts, cur.index) < Sum(w.counts)
    && (cur.level == INT64_MIN || cur.level == 0)
  }

  lemma StuckStep(w: Walk, cur: Cursor)
    requires PowersOf8(w) && Stuck(w, cur)
    ensures var (outcome, next) := Call(w.c, w.counts, w.stride, cur); outcome.Reported? && Stuck(w, next)
  {
    if cur.level == 0 {
      ZeroHasFirstSlot(w.c);
      LevelInFirstSlot(w.c, |w.counts|, w.stride, cur);
    } else {
      NegativeLevel(w.c, |w.counts|, w.stride, cur);
    }
  }

  lemma FirstStuck(w: Walk)
    requires PowersOf8(w)
    ensures Stuck(w, After(w, 21))
  {
    LeftBelowTop(w, 0x1000_0000_0000_0000);
    ReportedUpTo60(w, 20);
    AfterLevels(w, 21);
    Levels20And21(w);
  }

  lemma Levels20And21(w: Walk)
    requires PowersOf8(w)
    ensures w.Level(20) == 0x1000_0000_0000_0000 && Wrap64(w.Level(21)) == INT64_MIN
  {
    PowerOf8(w, 20);
    PowerOf8(w, 21);
    Pow2Of61(61);
    assert Pow2(63) == 4 * Pow2(61);
  }

  lemma {:induction false} StandsStill(w: Walk, n: nat)
    requires PowersOf8(w) && n >= 21
    ensures Stuck(w, After(w, n))
  {
    if n == 21 {
      FirstStuck(w);
    } else {
      StandsStill(w, n - 1);
      StuckStep(w, After(w, n - 1));
    }
  }

  /** That run never ends. */
  lemma PowersOf8NeverEnd(w: Walk, n: nat)
    requires PowersOf8(w)
    ensures !OutcomeAt(w, n).Ended? && !Right(w)
  {
    NotEnded(w, n);
    forall m: nat
      ensures !OutcomeAt(w, m).Ended?
    {
      NotEnded(w, m);
    }
  }

  lemma NotEnded(w: Walk, n: nat)
    requires PowersOf8(w)
    ensures !OutcomeAt(w, n).Ended?
  {
    if n <= 20 {
      ReportedUpTo60(w, n);
      ReportedStep(w, n);
    } else {
      StandsStill(w, n);
      StuckStep(w, After(w, n));
    }
  }
}
