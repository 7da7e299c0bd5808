/** struct hdr_histogram and the operations of src/hdr_histogram.c that change it. */
module Histograms {
  import opened Bits
  import opened BucketMath
  import opened BucketConfig
  import opened Recording
  import opened Results

  class Histogram {
    const cfg: Config
    const counts: array<int>
    var totalCount: int
    var minValue: int
    var maxValue: int

    ghost predicate Valid()
      reads this
    {
      cfg.Valid() && counts.Length == cfg.countsLen
    }

    ghost function State(): (s: State)
      reads this, counts
      requires Valid()
      ensures |s.counts| == cfg.countsLen
    {
      Recording.State(counts[..], totalCount, minValue, maxValue)
    }

    /** hdr_init_preallocated, on counts that hdr_init has zeroed. */
    constructor (c: Config)
      requires c.Valid()
      ensures Valid() && fresh(counts) && cfg == c
      ensures State() == EmptyState(c)
    {
      cfg := c;
      counts := new int[c.countsLen](_ => 0);
      totalCount, minValue, maxValue := 0, INT64_MAX, 0;
      new;
      assert counts[..] == EmptyState(c).counts;
    }

    /** hdr_reset */
    method Reset()
      requires Valid()
      modifies this, counts
      ensures Valid() && State() == EmptyState(cfg)
    {
      totalCount, minValue, maxValue := 0, INT64_MAX, 0;
      forall i | 0 <= i < counts.Length {
        counts[i] := 0;
      }
      assert counts[..] == EmptyState(cfg).counts;
    }

    /** counts_inc_normalised, at normalizing_index_offset 0. */
    method CountsInc(index: nat, count: int)
      requires Valid() && index < cfg.countsLen
      modifies this`totalCount, counts
      ensures Valid() && counts[..] == old(counts[..])[index := old(counts[index]) + count]
      ensures totalCount == old(totalCount) + count
    {
      counts[index] := counts[index] + count;
      totalCount := totalCount + count;
    }

    /** update_min_max */
    method UpdateMinMax(value: int)
      modifies this`minValue, this`maxValue
      ensures minValue == NewMin(old(minValue), value) && maxValue == NewMax(old(maxValue), value)
    {
      if value > maxValue {
        maxValue := value;
      }
      if value != 0 && value < minValue {
        minValue := value;
      }
    }

    /** hdr_record_values */
    method RecordValues(value: int, count: int) returns (ok: bool)
      requires Valid()
      modifies this, counts
      ensures Valid() && ok == Accepts(cfg, value)
      ensures State() == Recorded(cfg, old(State()), Record(value, count))
    {
      if value < 0 || cfg.highest < value {
        return false;
      }
      var index := CountsIndexFor(cfg, value);
      if index >= cfg.countsLen {
        return false;
      }
      CountsInc(index, count);
      UpdateMinMax(value);
      return true;
    }

    /** hdr_record_corrected_values */
    method RecordCorrectedValues(value: int, count: int, interval: int) returns (ok: bool)
      requires Valid()
      modifies this, counts
      ensures Valid()
      ensures (State(), ok) == RecordedUntilRejected(cfg, old(State()), Corrected(value, count, interval))
    {
      RecordedUntilRejectedFirst(cfg, State(), Record(value, count),
        if interval <= 0 || value <= interval then [] else Backfill(value - interval, count, interval));
      ok := RecordValues(value, count);
      if !ok {
        return;
      }
      if interval <= 0 || value <= interval {
        return;
      }
      ghost var outcome := RecordedUntilRejected(cfg, State(), Backfill(value - interval, count, interval));
      var missing := value - interval;
      while missing >= interval
        invariant Valid() && ok
        invariant outcome == RecordedUntilRejected(cfg, State(), Backfill(missing, count, interval))
        decreases missing
      {
        RecordedUntilRejectedFirst(cfg, State(), Record(missing, count), Backfill(missing - interval, count, interval));
        ok := RecordValues(missing, count);
        if !ok {
          return;
        }
        missing := missing - interval;
      }
    }

    /** hdr_reset_internal_counters */
    method ResetInternalCounters()
      requires Valid()
      modifies this
      ensures Valid() && State() == Recounted(cfg, old(counts[..]))
    {
      var minNonZero, maxIndex, observed := -1, -1, 0;
      for i := 0 to counts.Length
        invariant -1 <= maxIndex < i && -1 <= minNonZero < i
        invariant observed == PositiveSum(counts[..], i)
        invariant maxIndex == LastPositive(counts[..], i)
        invariant minNonZero == FirstPositivePastZero(counts[..], i)
      {
        if counts[i] > 0 {
          observed := observed + counts[i];
          maxIndex := i;
          if minNonZero == -1 && i != 0 {
            minNonZero := i;
          }
        }
      }
      if maxIndex == -1 {
        maxValue := 0;
      } else {
        maxValue := HighestEquivalent(cfg, ValueAtIndex(cfg, maxIndex));
      }
      if minNonZero == -1 {
        minValue := INT64_MAX;
      } else {
        minValue := ValueAtIndex(cfg, minNonZero);
      }
      totalCount := observed;
    }

    /** hdr_max */
    function Max(): nat
      reads this, counts
      requires Valid() && maxValue >= 0
    {
      ReportedMax(cfg, maxValue)
    }
  }

  /** hdr_init */
  method Init(lowest: Int64, highest: Int64, figures: int) returns (r: Result<Histogram>)
    ensures r.Failure? <==> Refuses(lowest, highest, figures)
    ensures r.Failure? ==> r.error == EINVAL
    ensures r.Success? ==>
      && r.value.Valid() && fresh(r.value) && fresh(r.value.counts)
      && r.value.cfg.lowest == lowest && r.value.cfg.highest == highest && r.value.cfg.figures == figures
      && r.value.State() == EmptyState(r.value.cfg)
  {
    var config := CalculateBucketConfig(lowest, highest, figures);
    if config.Failure? {
      return Failure(config.error);
    }
    var h := new Histogram(config.value);
    return Success(h);
  }
}
