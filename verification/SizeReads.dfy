/** The one access of hdr_interval_recorder_sample_and_recycle outside the lock: without a histogram
    to recycle it reads the parameters of a new one from the active histogram.  What it reads may
    meanwhile have been returned to a caller. */
module SizeReads {
  import opened Bits
  import opened Recording
  import opened BucketMath
  import opened IntervalRecorder
  import opened RecorderSafety
  import opened Progress
  import opened Results

  /** Sampler k is about to read from histogram h. */
  predicate IsReading(a: Recorder, k: nat, h: Id) {
    k < |a.samplers| && a.samplers[k] == Sizing(h)
  }

  /** No histogram goes away, and only loading the active one starts a read. */
  lemma ReadingStep(c: Config, a: Recorder, act: Action, k: nat, h: Id)
    requires Enabled(c, a, act)
    ensures a.hists.Keys <= Step(c, a, act).hists.Keys
    ensures IsReading(Step(c, a, act), k, h) ==> IsReading(a, k, h) || h == a.active
  {
  }

  lemma ReadingInRun(c: Config, run: seq<Recorder>, j: nat, k: nat, h: Id)
    requires c.highest <= INT64_MAX && IsRun(c, run) && 0 < j < |run| && IsReading(run[j], k, h)
    ensures run[j - 1].hists.Keys <= run[j].hists.Keys
    ensures IsReading(run[j - 1], k, h) || h == run[j - 1].active
  {
    NextInRun(c, run, j);
    var act :| Enabled(c, run[j - 1], act) && run[j] == Step(c, run[j - 1], act);
    ReadingStep(c, run[j - 1], act, k, h);
  }

  lemma ActiveInRun(c: Config, run: seq<Recorder>, i: nat)
    requires c.highest <= INT64_MAX && IsRun(c, run) && i < |run|
    ensures run[i].active in run[i].hists && run[i].active !in run[i].owned
  {
    RunKeepsInv(c, run, i);
    assert OwnershipInv(c, run[i]);
  }

  /** What a sampler is about to read has been allocated. */
  lemma {:induction false} ReadExists(c: Config, run: seq<Recorder>, i: nat, k: nat, h: Id)
    requires c.highest <= INT64_MAX && IsRun(c, run) && i < |run| && IsReading(run[i], k, h)
    ensures h in run[i].hists
  {
    if i > 0 {
      ReadingInRun(c, run, i, k, h);
      ActiveInRun(c, run, i - 1);
      if h != run[i - 1].active { ReadExists(c, run, i - 1, k, h); }
    }
  }

  lemma OwnedStepByReturn(c: Config, a: Recorder, act: Action, h: Id)
    requires LockInv(a) && Enabled(c, a, act) && h !in a.owned && h in Step(c, a, act).owned
    ensures Holder(a) == CaughtUp(h)
  {
    assert act.Unlock?;
    SamplerHolder(c, a, act);
  }

  lemma OwnedNextByReturn(c: Config, a: Recorder, b: Recorder, h: Id)
    ensures LockInv(a) && Next(c, a, b) && h !in a.owned && h in b.owned ==> Holder(a) == CaughtUp(h)
  {
    if LockInv(a) && Next(c, a, b) && h !in a.owned && h in b.owned {
      var act :| Enabled(c, a, act) && b == Step(c, a, act);
      OwnedStepByReturn(c, a, act, h);
    }
  }

  lemma LockInRun(c: Config, run: seq<Recorder>, i: nat)
    requires c.highest <= INT64_MAX && IsRun(c, run) && i < |run|
    ensures LockInv(run[i])
  {
    RunKeepsInv(c, run, i);
  }

  /** A histogram comes into the hands of a caller only when the lock holder returns it. */
  lemma OwnedByReturn(c: Config, run: seq<Recorder>, j: nat, h: Id)
    requires c.highest <= INT64_MAX && IsRun(c, run) && 0 < j < |run| && h !in run[j - 1].owned && h in run[j].owned
    ensures Holder(run[j - 1]) == CaughtUp(h)
  {
    LockInRun(c, run, j - 1);
    NextInRun(c, run, j);
    OwnedNextByReturn(c, run[j - 1], run[j], h);
  }

  /** In no state from i to j is the lock holder about to return h. */
  ghost predicate NotReturning(run: seq<Recorder>, i: nat, j: nat, h: Id)
    requires j <= |run|
  {
    forall n | i <= n < j :: Holder(run[n]) != CaughtUp(h)
  }

  /** Reading stays off the histograms of callers as long as no other sampler returns the one that
      was active when it was loaded. */
  lemma {:induction false} ReadIsNotOwned(c: Config, run: seq<Recorder>, i: nat, j: nat, h: Id)
    requires c.highest <= INT64_MAX && IsRun(c, run) && i <= j < |run|
    requires run[i].active == h && NotReturning(run, i, j, h)
    ensures h !in run[j].owned
  {
    if i == j {
      ActiveInRun(c, run, i);
    } else {
      ReadIsNotOwned(c, run, i, j - 1, h);
      assert Holder(run[j - 1]) != CaughtUp(h);
      if h in run[j].owned { OwnedByReturn(c, run, j, h); }
    }
  }

  // ---------- a sample taken in between ----------

  /** A histogram is active that no caller owns, and both samplers are ready. */
  lemma TwoSamplers(c: Config) returns (run: seq<Recorder>)
    requires c.highest <= INT64_MAX
    ensures Takes(c, run, []) && run[0].lock.None? && run[0].writers == [] && run[0].samplers == [Ready, Ready]
    ensures run[0].active == 0 && 1 !in run[0].hists
  {
    run := [Recorder(0, 0, INT64_MIN, None, 0, [], [Ready, Ready], map[0 := EmptyState(c)], {}, map[0 := []], [])];
  }

  /** The condition is needed: a sampler may have loaded the active histogram when another one takes
      it out and returns it to its caller, before the first reads from it. */
  lemma ReadOfOwned(c: Config) returns (run: seq<Recorder>)
    requires c.highest <= INT64_MAX
    ensures IsRun(c, run) && IsReading(run[|run| - 1], 0, 0) && 0 in run[|run| - 1].owned
  {
    run := TwoSamplers(c);
    var a := Step(c, run[0], LoadForSize(0));
    LeadsFirst(c, run[0], LoadForSize(0), [], a);
    run := RunGoesOn(c, run, [], [LoadForSize(0)], a);
    RunIsReachable(c, run, |run| - 1);
    var acts, b := SampleCompletes(c, a, 1, 1);
    run := RunGoesOn(c, run, [] + [LoadForSize(0)], acts, b);
  }
}
