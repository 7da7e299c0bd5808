/** From concurrent recording to the log: what the layers guarantee together about the samples that
    hdr_interval_recorder_sample_and_recycle returns. */
module EndToEnd {
  import opened Bits
  import opened BucketMath
  import opened Recording
  import opened RankQueries
  import opened IntervalRecorder
  import opened RecorderSafety
  import opened HistogramCodec
  import opened LogText
  import opened LogStream

  /** In every interleaving, every rank of a returned sample is answered with the promised
      precision: the answer stands for the value of that rank among those recorded into it. */
  lemma SampledRanksAreAccurate(c: Config, run: seq<Recorder>, i: nat, j: nat, t: int)
    requires c.Valid() && IsRun(c, run) && i < |run| && j < |run[i].returned|
    requires forall r | r in run[i].returned[j].log :: r.count >= 0
    requires 1 <= t <= run[i].returned[j].contents.total
    ensures var sample := run[i].returned[j];
      && t <= |Sorted(Values(c, sample.log))|
      && |sample.contents.counts| == c.countsLen
      && Accurate(c, Sorted(Values(c, sample.log))[t - 1], ValueOfRank(c, sample.contents.counts, t))
  {
    var sample := run[i].returned[j];
    SamplesAreSequential(c, run, i);
    RanksExist(c, sample.log);
    RankAccuracy(c, sample.log, t);
  }

  /** Entry k of the log is written for the sample with the k-th of the given numbers. */
  ghost predicate LogsSamples(c: Config, a: Recorder, picks: seq<nat>, log: seq<Interval>) {
    && |picks| == |log|
    && forall k | 0 <= k < |log| ::
      && picks[k] < |a.returned| && log[k].cfg == c && log[k].contents == a.returned[picks[k]].contents
      && (forall r | r in a.returned[picks[k]].log :: r.count >= 0)
  }

  /** What hdr_log_write_entry can write besides the histogram. */
  ghost predicate Loggable(log: seq<Interval>) {
    forall k | 0 <= k < |log| ::
      && (log[k].tag.Some? ==> forall x | x in log[k].tag.value :: x != ',' && !IsNewline(x))
      && FitsInt64(log[k].contents.counts) && log[k].ratioBits < TWO_TO_64
  }

  /** Samples of a concurrent run that are written to a log, in any order and with any tags and
      times, are read back from it entry by entry and then to the end of the file, each with the
      tag and the times written and with a text from which only that sample can be decoded. */
  lemma SamplesSurviveTheLog(c: Config, run: seq<Recorder>, i: nat, picks: seq<nat>, log: seq<Interval>)
    requires c.Valid() && IsRun(c, run) && i < |run|
    requires LogsSamples(c, run[i], picks, log) && Loggable(log)
    ensures AllWritable(log) && ReadsBack(Written(log), 0, log)
  {
    forall k | 0 <= k < |log|
      ensures log[k].Writable()
    {
      SampleIsBounded(c, run, i, picks[k]);
    }
    LogRoundTrip(log);
  }

  lemma SampleIsBounded(c: Config, run: seq<Recorder>, i: nat, j: nat)
    requires c.Valid() && IsRun(c, run) && i < |run| && j < |run[i].returned|
    requires forall r | r in run[i].returned[j].log :: r.count >= 0
    ensures Bounded(c, run[i].returned[j].contents)
  {
    SamplesAreSequential(c, run, i);
    EmptyIsConsistent(c);
    RunKeepsBounded(c, EmptyState(c), run[i].returned[j].log);
  }
}
