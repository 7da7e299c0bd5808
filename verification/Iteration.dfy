/** struct hdr_iter: walking over the slots of a histogram one by one, over the slots in use, and
    in steps of linearly or exponentially growing reporting levels. */
module Iteration {
  import opened Bits
  import opened BucketMath
  import opened Recording
  import opened Histograms
  import opened Levels

  class Iterator {
    const h: Histogram
    const totalCount: int           // total_count of the histogram when the iterator was made
    var countsIndex: int
    var count: int
    var cumulativeCount: int
    var value: int
    var highestEquivalent: int
    var iteratedFrom: int
    var iteratedTo: int
    // the specifics of the linear and the logarithmic iterator
    const stride: Stride
    var countAdded: int
    var nextLevel: Int64
    var nextLevelLowest: int

    /** The number of slots passed so far. */
    function Passed(): int
      reads this`countsIndex
      requires countsIndex >= -1
    {
      Levels.Passed(countsIndex, h.counts.Length)
    }

    function Cursor(): Cursor
      reads this
    {
      Levels.Cursor(countsIndex, nextLevel)
    }

    /** The fields describe the slot last moved to. */
    ghost predicate Valid()
      reads this`countsIndex, this`count, this`cumulativeCount, this`value, this`highestEquivalent, h, h.counts
    {
      && countsIndex >= -1
      && cumulativeCount == Prefix(h.counts[..], Passed())
      && (if Passed() == 0 then value == 0 && count == 0 else AtSlot(Passed() - 1))
    }

    ghost predicate AtSlot(i: nat)
      reads this`count, this`value, this`highestEquivalent, h, h.counts
      requires i < h.counts.Length
    {
      && value == ValueAtIndex(h.cfg, i)
      && count == h.counts[i]
      && highestEquivalent == HighestEquivalent(h.cfg, value)
    }

    /** The total taken at the start is that of the slots, as it is while the histogram does not
        change. */
    ghost predicate Unchanged()
      reads h, h.counts
    {
      NonNegative(h.counts[..]) && totalCount == Sum(h.counts[..])
    }

    /** hdr_iter_init and hdr_iter_recorded_init, which do not use a level. */
    constructor (h: Histogram)
      ensures this.h == h && totalCount == h.totalCount
      ensures Valid() && countsIndex == -1
    {
      this.h := h;
      totalCount := h.totalCount;
      countsIndex, count, cumulativeCount, value := -1, 0, 0, 0;
      highestEquivalent, iteratedFrom, iteratedTo := 0, 0, 0;
      stride := Linear(1);
      countAdded, nextLevel, nextLevelLowest := 0, 0, 0;
    }

    /** hdr_iter_linear_init and hdr_iter_log_init */
    constructor WithLevels(h: Histogram, stride: Stride, first: Int64)
      requires h.cfg.halfMagnitude <= 61
      ensures this.h == h && totalCount == h.totalCount && this.stride == stride
      ensures Valid() && countsIndex == -1
      ensures nextLevel == first && nextLevelLowest == Lowest64(h.cfg, first)
      ensures iteratedFrom == iteratedTo == 0
    {
      this.h := h;
      totalCount := h.totalCount;
      countsIndex, count, cumulativeCount, value := -1, 0, 0, 0;
      highestEquivalent, iteratedFrom, iteratedTo := 0, 0, 0;
      this.stride := stride;
      countAdded, nextLevel, nextLevelLowest := 0, first, Lowest64(h.cfg, first);
    }

    /** has_next */
    predicate HasNext()
      reads this
    {
      cumulativeCount < totalCount
    }

    /** move_next */
    method MoveNext() returns (moved: bool)
      requires Valid()
      modifies this`countsIndex, this`count, this`cumulativeCount, this`value, this`highestEquivalent
      ensures Valid() && countsIndex == old(countsIndex) + 1
      ensures moved == (countsIndex < h.counts.Length)
      ensures !moved ==> unchanged(this`count, this`cumulativeCount, this`value, this`highestEquivalent)
    {
      countsIndex := countsIndex + 1;
      if countsIndex >= h.counts.Length {
        return false;
      }
      count := h.counts[countsIndex];
      cumulativeCount := cumulativeCount + count;
      value := ValueAtIndex(h.cfg, countsIndex);
      highestEquivalent := HighestEquivalent(h.cfg, value);
      return true;
    }

    /** basic_iter_next */
    method BasicNext() returns (moved: bool)
      requires Valid()
      modifies this`countsIndex, this`count, this`cumulativeCount, this`value, this`highestEquivalent
      ensures Valid()
      ensures moved == old(HasNext() && countsIndex < h.counts.Length)
      ensures countsIndex == old(countsIndex) + if moved then 1 else 0
    {
      if !HasNext() || countsIndex >= h.counts.Length {
        return false;
      }
      var _ := MoveNext();
      return true;
    }

    /** update_iterated_values */
    method UpdateIteratedValues(to: int)
      modifies this`iteratedFrom, this`iteratedTo
      ensures iteratedFrom == old(iteratedTo) && iteratedTo == to
    {
      iteratedFrom, iteratedTo := iteratedTo, to;
    }

    /** all_values_iter_next */
    method AllValuesNext() returns (moved: bool)
      requires Valid()
      modifies this`countsIndex, this`count, this`cumulativeCount, this`value, this`highestEquivalent
      modifies this`iteratedFrom, this`iteratedTo
      ensures Valid() && countsIndex == old(countsIndex) + 1
      ensures moved == (countsIndex < h.counts.Length)
      ensures moved ==>
        && iteratedFrom == old(iteratedTo) && iteratedTo == ValueAtIndex(h.cfg, countsIndex)
        && count == h.counts[countsIndex]
      ensures !moved ==> iteratedFrom == old(iteratedFrom) && iteratedTo == old(iteratedTo)
    {
      moved := MoveNext();
      if moved {
        UpdateIteratedValues(value);
      }
    }

    /** No slot in use has been passed since the given one, except the one moved to, if any. */
    ghost predicate Skipping(from: int, more: bool)
      reads this, h, h.counts
    {
      && Valid() && Unchanged() && from <= countsIndex
      && (if more then from < countsIndex < h.counts.Length else Passed() == h.counts.Length || !HasNext())
      && NoneInUse(h.counts[..], from + 1, if more then countsIndex else Passed())
    }

    /** basic_iter_next in the loop of recorded_iter_next */
    method SkipOne(ghost from: int) returns (more: bool)
      requires Valid() && Unchanged() && from <= countsIndex
      requires NoneInUse(h.counts[..], from + 1, Passed())
      modifies this`countsIndex, this`count, this`cumulativeCount, this`value, this`highestEquivalent
      ensures Skipping(from, more)
      ensures countsIndex == old(countsIndex) + if more then 1 else 0
    {
      if HasNext() { SlotsAreLeft(); }
      more := BasicNext();
    }

    /** While something is left to count there is a slot to move to. */
    lemma SlotsAreLeft()
      requires Valid() && Unchanged() && HasNext()
      ensures countsIndex + 1 < h.counts.Length && Passed() == countsIndex + 1
    {
    }

    /** A slot in use is a step of its own. */
    method TakeSlot()
      requires Valid()
      modifies this`iteratedFrom, this`iteratedTo, this`countAdded
      ensures Valid() && iteratedFrom == old(iteratedTo) && iteratedTo == value && countAdded == count
    {
      UpdateIteratedValues(value);
      countAdded := count;
    }

    lemma SlotUsed(from: int)
      requires Skipping(from, true) && count != 0
      ensures h.counts[countsIndex] == count > 0 && value == ValueAtIndex(h.cfg, countsIndex)
    {
    }

    lemma EmptySlotPassed(from: int)
      requires Skipping(from, true) && count == 0
      ensures NoneInUse(h.counts[..], from + 1, Passed())
    {
    }

    /** When there is nothing further to count, no slot behind is in use either. */
    lemma NoneBehind(from: int)
      requires Skipping(from, false)
      ensures NoneInUse(h.counts[..], from + 1, h.counts.Length)
    {
      NothingLeft(h.counts[..], Passed());
    }

    /** recorded_iter_next: on to the next slot in use, or to the end when there is none. */
    method RecordedNext() returns (moved: bool)
      requires Valid() && Unchanged()
      modifies this
      ensures Valid()
      ensures moved ==> old(countsIndex) < countsIndex < h.counts.Length && h.counts[countsIndex] > 0
      ensures NoneInUse(h.counts[..], old(countsIndex) + 1, if moved then countsIndex else h.counts.Length)
      ensures moved ==>
        && iteratedFrom == old(iteratedTo) && iteratedTo == ValueAtIndex(h.cfg, countsIndex)
        && countAdded == h.counts[countsIndex]
      ensures !moved ==> iteratedFrom == old(iteratedFrom) && iteratedTo == old(iteratedTo)
    {
      var more := SkipOne(countsIndex);
      while more
        invariant Skipping(old(countsIndex), more)
        invariant iteratedFrom == old(iteratedFrom) && iteratedTo == old(iteratedTo)
        decreases h.counts.Length - countsIndex, more
      {
        if count != 0 {
          SlotUsed(old(countsIndex));
          TakeSlot();
          return true;
        }
        EmptySlotPassed(old(countsIndex));
        more := SkipOne(old(countsIndex));
      }
      NoneBehind(old(countsIndex));
      return false;
    }

    /** next_value_greater_than_reporting_level_upper_bound */
    predicate NextValueGreaterThan(bound: int)
      reads this, h
      requires countsIndex >= -1
    {
      countsIndex < h.counts.Length && Peek64(h.cfg, countsIndex + 1) > bound
    }

    /** What holds between two calls, for any level. */
    ghost predicate LevelValid()
      reads this, h, h.counts
    {
      && Valid() && Unchanged() && h.cfg.halfMagnitude <= 61
      && countsIndex <= h.counts.Length
      && nextLevelLowest == Lowest64(h.cfg, nextLevel)
    }

    /** The branch of iter_linear_next and log_iter_next that reports a level. */
    method Report()
      requires LevelValid()
      modifies this`iteratedFrom, this`iteratedTo, this`nextLevel, this`nextLevelLowest
      ensures LevelValid() && nextLevel == Wrap64(stride.Next(old(nextLevel)))
      ensures iteratedFrom == old(iteratedTo) && iteratedTo == old(nextLevel)
    {
      UpdateIteratedValues(nextLevel);
      AdvanceLevel();
    }

    method AdvanceLevel()
      requires LevelValid()
      modifies this`nextLevel, this`nextLevelLowest
      ensures LevelValid() && nextLevel == Wrap64(stride.Next(old(nextLevel)))
    {
      nextLevel := Wrap64(stride.Next(nextLevel));
      nextLevelLowest := Lowest64(h.cfg, nextLevel);
    }

    /** The branch that has not reached the level yet. */
    method MoveTowardsLevel() returns (moved: bool)
      requires LevelValid() && countsIndex < h.counts.Length
      modifies this`countsIndex, this`count, this`cumulativeCount, this`value, this`highestEquivalent, this`countAdded
      ensures LevelValid() && countsIndex == old(countsIndex) + 1
      ensures moved == (countsIndex < h.counts.Length)
      ensures countAdded - old(countAdded) == cumulativeCount - old(cumulativeCount)
    {
      moved := MoveNext();
      if moved {
        countAdded := countAdded + count;
      }
    }

    /** What a call has done that was to end with the given outcome and cursor, and started with the
        given value_iterated_from and value_iterated_to. */
    ghost predicate Took(step: (Outcome, Cursor), from: int, to: int)
      reads this
    {
      && Cursor() == step.1
      && if step.0.Reported? then iteratedFrom == to && iteratedTo == step.0.to
         else iteratedFrom == from && iteratedTo == to
    }

    /** The body of the loop of iter_linear_next and log_iter_next. */
    method LevelStep() returns (done: bool)
      requires LevelValid() && countsIndex < h.counts.Length
      modifies this
      ensures LevelValid()
      ensures countAdded - old(countAdded) == cumulativeCount - old(cumulativeCount)
      ensures var step := Advance(h.cfg, h.counts.Length, stride, old(Cursor()));
        if done then Took(step, old(iteratedFrom), old(iteratedTo))
        else
          && old(countsIndex) < countsIndex < h.counts.Length
          && iteratedFrom == old(iteratedFrom) && iteratedTo == old(iteratedTo)
          && Advance(h.cfg, h.counts.Length, stride, Cursor()) == step
    {
      if value >= nextLevelLowest {
        Report();
        return true;
      }
      var moved := MoveTowardsLevel();
      return !moved;
    }

    /** iter_linear_next and log_iter_next, for any level, width and base. */
    method LevelNext() returns (more: bool)
      requires LevelValid()
      modifies this
      ensures LevelValid()
      ensures countAdded == cumulativeCount - old(cumulativeCount)
      ensures var step := Call(h.cfg, h.counts[..], stride, old(Cursor()));
        && more == !step.0.Ended? && Took(step, old(iteratedFrom), old(iteratedTo))
        && (step.0.Reported? ==>
              && iteratedTo == old(nextLevel)
              && nextLevel == Wrap64(if stride.Linear? then old(nextLevel) + stride.width
                                     else old(nextLevel) * stride.base))
      ensures !more ==> cumulativeCount == totalCount
    {
      countAdded := 0;
      EndHasNothingLeft();
      if HasNext() || NextValueGreaterThan(nextLevelLowest) {
        AdvanceStays(h.cfg, h.counts.Length, stride, Cursor());
        AdvanceReports(h.cfg, h.counts.Length, stride, Cursor());
        LevelLoop();
        return true;
      }
      PrefixMonotone(h.counts[..], Passed(), h.counts.Length);
      return false;
    }

    /** The loop of iter_linear_next and log_iter_next. */
    method LevelLoop()
      requires LevelValid() && countsIndex < h.counts.Length
      modifies this
      ensures LevelValid()
      ensures countAdded - old(countAdded) == cumulativeCount - old(cumulativeCount)
      ensures Took(Advance(h.cfg, h.counts.Length, stride, old(Cursor())), old(iteratedFrom), old(iteratedTo))
    {
      ghost var step := Advance(h.cfg, h.counts.Length, stride, Cursor());
      var done := false;
      while !done
        invariant LevelValid() && countAdded - old(countAdded) == cumulativeCount - old(cumulativeCount)
        invariant if done then Took(step, old(iteratedFrom), old(iteratedTo))
                  else
                    && countsIndex < h.counts.Length
                    && iteratedFrom == old(iteratedFrom) && iteratedTo == old(iteratedTo)
                    && Advance(h.cfg, h.counts.Length, stride, Cursor()) == step
        decreases !done, h.counts.Length - countsIndex
      {
        done := LevelStep();
      }
    }

    lemma EndHasNothingLeft()
      requires LevelValid()
      ensures countsIndex < h.counts.Length || !(HasNext() || NextValueGreaterThan(nextLevelLowest))
      ensures HasNext() || NextValueGreaterThan(nextLevelLowest) <==> Due(h.cfg, h.counts[..], countsIndex, nextLevel)
    {
    }
  }

  /** Slots from i up to j hold nothing. */
  ghost predicate NoneInUse(counts: seq<int>, i: int, j: int) {
    forall k | i <= k < j && 0 <= k < |counts| :: counts[k] == 0
  }

  lemma NothingLeft(counts: seq<int>, passed: nat)
    requires NonNegative(counts) && passed <= |counts|
    requires Prefix(counts, passed) >= Sum(counts)
    ensures NoneInUse(counts, passed, |counts|)
  {
    forall i | passed <= i < |counts|
      ensures counts[i] == 0
    {
      PrefixMonotone(counts, passed, i);
      PrefixMonotone(counts, i + 1, |counts|);
    }
  }
}
