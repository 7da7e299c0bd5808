/** Loops over hdr_iter_next on a linear or logarithmic iterator. */
module LevelIteration {
  import opened Bits
  import opened Recording
  import opened Histograms
  import opened Iteration
  import opened Levels
  import opened LevelRuns

  /** What a call leaves behind: cumulative_count, count_added_in_this_iteration_step and
      value_iterated_to. */
  datatype Step = Step(cumulative: int, added: int, to: int)

  function Added(steps: seq<Step>): int {
    if steps == [] then 0 else Added(steps[..|steps| - 1]) + steps[|steps| - 1].added
  }

  /** value_iterated_to after n calls */
  function IteratedTo(w: Walk, n: nat): int
    requires w.c.halfMagnitude <= 61
  {
    if n == 0 then 0
    else
      match OutcomeAt(w, n - 1)
      case Reported(to) => to
      case _ => IteratedTo(w, n - 1)
  }

  function StepAt(w: Walk, k: nat): Step
    requires w.c.halfMagnitude <= 61
  {
    Step(Counted(w, k + 1), Counted(w, k + 1) - Counted(w, k), IteratedTo(w, k + 1))
  }

  /** The steps of calls that have not ended the run. */
  ghost predicate StepsOf(w: Walk, steps: seq<Step>)
    requires w.c.halfMagnitude <= 61
  {
    forall k | 0 <= k < |steps| :: steps[k] == StepAt(w, k) && !OutcomeAt(w, k).Ended?
  }

  /** The iterator after these steps. */
  ghost predicate Walking(it: Iterator, w: Walk, steps: seq<Step>)
    reads it, it.h, it.h.counts
  {
    && it.LevelValid() && w.c == it.h.cfg && w.counts == it.h.counts[..] && w.stride == it.stride
    && it.Cursor() == After(w, |steps|) && it.iteratedTo == IteratedTo(w, |steps|)
    && it.cumulativeCount == Added(steps)
    && StepsOf(w, steps)
  }

  /** One hdr_iter_next of the loop. */
  method NextStep(it: Iterator, ghost w: Walk, steps: seq<Step>) returns (more: bool, steps': seq<Step>)
    requires Walking(it, w, steps)
    modifies it
    ensures Walking(it, w, steps') && |steps'| == |steps| + (if more then 1 else 0)
    ensures !more ==> OutcomeAt(w, |steps'|).Ended? && Added(steps') == it.totalCount
  {
    CumulativeIsCounted(it, w, |steps|);
    more := it.LevelNext();
    NextCall(w, |steps|);
    steps' := steps;
    if more {
      var step := Step(it.cumulativeCount, it.countAdded, it.iteratedTo);
      CumulativeIsCounted(it, w, |steps| + 1);
      StepsOneMore(w, steps, step);
      AddedOneMore(steps, step);
      steps' := steps + [step];
    }
  }

  lemma CumulativeIsCounted(it: Iterator, w: Walk, n: nat)
    requires it.LevelValid() && w.c == it.h.cfg && w.counts == it.h.counts[..] && it.Cursor() == After(w, n)
    ensures it.cumulativeCount == Counted(w, n)
  {
  }

  lemma NextCall(w: Walk, n: nat)
    requires w.c.halfMagnitude <= 61
    ensures Call(w.c, w.counts, w.stride, After(w, n)) == (OutcomeAt(w, n), After(w, n + 1))
    ensures OutcomeAt(w, n).Ended? ==> After(w, n + 1) == After(w, n)
  {
    if After(w, n).index < |w.counts| { AdvanceStays(w.c, |w.counts|, w.stride, After(w, n)); }
  }

  lemma StepsOneMore(w: Walk, steps: seq<Step>, step: Step)
    requires w.c.halfMagnitude <= 61 && StepsOf(w, steps)
    requires step == StepAt(w, |steps|) && !OutcomeAt(w, |steps|).Ended?
    ensures StepsOf(w, steps + [step])
  {
  }

  lemma AddedOneMore(steps: seq<Step>, step: Step)
    ensures Added(steps + [step]) == Added(steps) + step.added
  {
    assert (steps + [step])[..|steps|] == steps;
  }

  /** The first calls, up to the given number or to the one that ends the run. */
  method IterateLevels(h: Histogram, stride: Stride, first: Int64, limit: nat) returns (steps: seq<Step>, ended: bool)
    requires h.Valid() && NonNegative(h.counts[..]) && h.totalCount == Sum(h.counts[..])
    ensures var w := Walk(h.cfg, h.counts[..], stride, first);
      && StepsOf(w, steps)
      && (if ended then OutcomeAt(w, |steps|).Ended? && Added(steps) == h.totalCount else |steps| == limit)
  {
    ghost var w := Walk(h.cfg, h.counts[..], stride, first);
    var it := new Iterator.WithLevels(h, stride, first);
    steps, ended := [], false;
    while |steps| < limit && !ended
      invariant fresh(it) && it.h == h && it.totalCount == h.totalCount && Walking(it, w, steps)
      invariant |steps| <= limit
      invariant ended ==> OutcomeAt(w, |steps|).Ended? && Added(steps) == h.totalCount
      decreases !ended, limit - |steps|
    {
      var more;
      more, steps := NextStep(it, w, steps);
      ended := !more;
    }
  }

  /** The steps are what the iterators promise if no level wraps around: they end, step k has
      counted the values up to the k-th level, and has iterated to this level unless it went past
      the last slot.  The k-th level of the linear iterator is the first one and k widths, that of
      the logarithmic one the first one times the k-th power of the base. */
  lemma StepsAreRight(w: Walk, k: nat)
    requires w.Valid() && NoWrappedLevel(w) && !OutcomeAt(w, k).Ended?
    ensures var level :=
        if w.stride.Linear? then w.first + k * w.stride.width else w.first * Power(w.stride.base, k);
      && level >= 0 && StepAt(w, k).cumulative == CountUpTo(w.c, w.counts, level)
      && (OutcomeAt(w, k).Reported? ==> StepAt(w, k).to == level)
  {
    RightIffNoWrappedLevel(w);
    assert StepRight(w, k);
  }
}
