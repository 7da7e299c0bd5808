/** Nothing blocks for good: from any state that a run can reach, a writer can complete its record on
    its own, the writers in flight can all leave, and a sample can then be taken.  This shows as well
    that the steps of IntervalRecorder do what they are for. */
module Progress {
  import opened Bits
  import opened BucketMath
  import opened Recording
  import opened AtomicRecording
  import opened IntervalRecorder
  import opened RecorderSafety
  import opened Results

  // ---------- continuations ----------

  /** These actions lead from one state to another. */
  ghost predicate Leads(c: Config, a: Recorder, acts: seq<Action>, b: Recorder)
    decreases |acts|
  {
    if acts == [] then b == a
    else Enabled(c, a, acts[0]) && Leads(c, Step(c, a, acts[0]), acts[1..], b)
  }

  lemma LeadsFirst(c: Config, a: Recorder, act: Action, acts: seq<Action>, b: Recorder)
    requires Enabled(c, a, act) && Leads(c, Step(c, a, act), acts, b)
    ensures Leads(c, a, [act] + acts, b)
  {
    assert ([act] + acts)[1..] == acts;
  }

  lemma FirstOfBoth(p: seq<Action>, q: seq<Action>)
    requires p != []
    ensures [p[0]] + (p[1..] + q) == p + q
  {
  }

  lemma {:induction false} LeadsOn(c: Config, a: Recorder, p: seq<Action>, b: Recorder, q: seq<Action>, d: Recorder)
    requires Leads(c, a, p, b) && Leads(c, b, q, d)
    ensures Leads(c, a, p + q, d)
    decreases |p|
  {
    if p == [] {
      assert p + q == q;
    } else {
      LeadsOn(c, Step(c, a, p[0]), p[1..], b, q, d);
      LeadsFirst(c, a, p[0], p[1..] + q, d);
      FirstOfBoth(p, q);
    }
  }

  /** A run goes on with any actions that lead on from its last state. */
  lemma {:induction false} RunGoesOn(c: Config, run: seq<Recorder>, done: seq<Action>, acts: seq<Action>, b: Recorder)
    returns (run': seq<Recorder>)
    requires Takes(c, run, done) && Leads(c, run[|run| - 1], acts, b)
    ensures Takes(c, run', done + acts) && run <= run' && run'[|run'| - 1] == b
    decreases |acts|
  {
    if acts == [] {
      assert done + acts == done;
      run' := run;
    } else {
      var next := Step(c, run[|run| - 1], acts[0]);
      RunOneMore(c, run, done, acts[0]);
      run' := RunGoesOn(c, run + [next], done + [acts[0]], acts[1..], b);
      assert done + [acts[0]] + acts[1..] == done + acts;
    }
  }

  lemma RunOneMore(c: Config, run: seq<Recorder>, done: seq<Action>, act: Action)
    requires Takes(c, run, done) && Enabled(c, run[|run| - 1], act)
    ensures Takes(c, run + [Step(c, run[|run| - 1], act)], done + [act])
  {
    var run', done' := run + [Step(c, run[|run| - 1], act)], done + [act];
    forall i | 0 <= i < |done'|
      ensures TakesAt(c, run', done', i) && NextAt(c, run', i)
    {
      assert i < |done| ==> TakesAt(c, run, done, i);
    }
  }

  /** Some actions lead from a recorder just initialised to this state. */
  ghost predicate Reachable(c: Config, a: Recorder) {
    c.highest <= INT64_MAX && exists s, acts :: IntervalRecorder.Initial(c, s) && Leads(c, s, acts, a)
  }

  lemma {:induction false} LeadsKeepsInv(c: Config, a: Recorder, acts: seq<Action>, b: Recorder)
    requires c.highest <= INT64_MAX && Leads(c, a, acts, b)
    ensures Inv(c, a) ==> Inv(c, b)
    decreases |acts|
  {
    if Inv(c, a) && acts != [] {
      StepKeepsInv(c, a, acts[0]);
      LeadsKeepsInv(c, Step(c, a, acts[0]), acts[1..], b);
    }
  }

  lemma ReachableInv(c: Config, a: Recorder)
    ensures Reachable(c, a) ==> Inv(c, a)
  {
    if Reachable(c, a) {
      var s, acts :| IntervalRecorder.Initial(c, s) && Leads(c, s, acts, a);
      InitialIsInv(c, s);
      LeadsKeepsInv(c, s, acts, a);
    }
  }

  lemma ReachableOn(c: Config, a: Recorder, acts: seq<Action>, b: Recorder)
    requires Reachable(c, a) && Leads(c, a, acts, b)
    ensures Reachable(c, b)
  {
    var s, done :| IntervalRecorder.Initial(c, s) && Leads(c, s, done, a);
    LeadsOn(c, s, done, a, acts, b);
  }

  /** So every state of a run is reachable. */
  lemma {:induction false} RunIsReachable(c: Config, run: seq<Recorder>, i: nat)
    requires c.highest <= INT64_MAX && RecorderSafety.IsRun(c, run) && i < |run|
    ensures Reachable(c, run[i])
  {
    if i == 0 {
      assert Leads(c, run[0], [], run[0]);
    } else {
      RunIsReachable(c, run, i - 1);
      NextInRun(c, run, i);
      NextIsReachable(c, run[i - 1], run[i]);
    }
  }

  lemma NextIsReachable(c: Config, a: Recorder, b: Recorder)
    requires Reachable(c, a) && Next(c, a, b)
    ensures Reachable(c, b)
  {
    var act :| Enabled(c, a, act) && b == Step(c, a, act);
    LeadsFirst(c, a, act, [], b);
    ReachableOn(c, a, [act], b);
  }

  // ---------- records ----------

  lemma {:induction false} RecordsConcat(p: seq<Action>, q: seq<Action>)
    ensures RecordsOf(p + q) == RecordsOf(p) + RecordsOf(q)
  {
    if q == [] {
      assert p + q == p;
    } else {
      assert (p + q)[..|p + q| - 1] == p + q[..|q| - 1];
      RecordsConcat(p, q[..|q| - 1]);
    }
  }

  lemma RecordsOne(act: Action)
    ensures RecordsOf([act]) == RecordOf(act)
  {
    assert [act][..0] == [];
  }

  // ---------- writers ----------

  /** The histogram of writer w, and the call it is in, after accesses of its own. */
  function WithOp(a: Recorder, w: nat, s: State, t: Thread): Recorder
    requires w < |a.writers| && a.writers[w].Inside?
  {
    a.(writers := a.writers[w := a.writers[w].(op := t)], hists := a.hists[a.writers[w].h := s])
  }

  ghost predicate InCall(c: Config, a: Recorder, w: nat) {
    && w < |a.writers| && a.writers[w].Inside?
    && a.writers[w].h in a.hists && CanAct(c, a.hists[a.writers[w].h], a.writers[w].op)
  }

  /** The writer has done this much of a record of r into contents s0, and so far it has been on its
      own. */
  ghost predicate OnItsOwn(c: Config, a: Recorder, w: nat, s0: State, r: Record)
    requires InCall(c, a, w)
  {
    && |s0.counts| == c.countsLen && Accepts(c, r.value)
    && DoneSoFar(c, s0, r, a.hists[a.writers[w].h], a.writers[w].op)
  }

  lemma OpAdvances(c: Config, a: Recorder, w: nat, s0: State, r: Record) returns (act: Action, s: State, t: Thread)
    requires InCall(c, a, w) && !a.writers[w].op.Idle?
    ensures act.Operate? && Enabled(c, a, act) && Step(c, a, act) == WithOp(a, w, s, t)
    ensures InCall(c, WithOp(a, w, s, t), w)
    ensures StepsLeft(c, s, t) < StepsLeft(c, a.hists[a.writers[w].h], a.writers[w].op)
    ensures OnItsOwn(c, a, w, s0, r) ==> OnItsOwn(c, WithOp(a, w, s, t), w, s0, r)
  {
    var h, op := a.writers[w].h, a.writers[w].op;
    s, t := NeverStuck(c, a.hists[h], op);
    MicroDescends(c, a.hists[h], op, s, t);
    act := Operate(w, s, t);
    if OnItsOwn(c, a, w, s0, r) { MicroDoes(c, s0, r, a.hists[h], op, s, t); }
  }

  /** A writer inside a call of a record function completes it on its own; nothing else changes but
      the histogram it holds, and that to what the whole call makes of it if it was on its own from
      the start. */
  lemma {:induction false} OpFinishes(c: Config, a: Recorder, w: nat, s0: State, r: Record)
    returns (acts: seq<Action>, s: State)
    requires InCall(c, a, w)
    ensures Leads(c, a, acts, WithOp(a, w, s, Idle)) && RecordsOf(acts) == multiset{} && |s.counts| == c.countsLen
    ensures OnItsOwn(c, a, w, s0, r) ==> s == Recorded(c, s0, r)
    decreases StepsLeft(c, a.hists[a.writers[w].h], a.writers[w].op)
  {
    if a.writers[w].op.Idle? {
      acts, s := [], a.hists[a.writers[w].h];
      assert WithOp(a, w, s, Idle) == a;
    } else {
      var act, s1, t1 := OpAdvances(c, a, w, s0, r);
      var rest;
      rest, s := OpFinishes(c, WithOp(a, w, s1, t1), w, s0, r);
      assert WithOp(WithOp(a, w, s1, t1), w, s, Idle) == WithOp(a, w, s, Idle);
      acts := [act] + rest;
      LeadsFirst(c, a, act, rest, WithOp(a, w, s, Idle));
      RecordsConcat([act], rest);
      RecordsOne(act);
    }
  }

  /** What the steps of writers leave as it is. */
  ghost predicate SameButWriters(a: Recorder, b: Recorder) {
    && b.samplers == a.samplers && b.lock == a.lock && b.active == a.active
    && b.owned == a.owned && b.returned == a.returned
  }

  lemma ActiveCanAct(c: Config, a: Recorder, t: Thread)
    requires Reachable(c, a) && (t.Idle? || Accepts(c, t.r.value))
    ensures a.active in a.hists && a.active in a.logs && a.active !in a.owned && CanAct(c, a.hists[a.active], t)
  {
    ReachableInv(c, a);
    assert AtomicInv(c, a.hists[a.active], OpsOn(a.writers, a.active), a.logs[a.active]);
  }

  /** A writer that is outside can begin a record. */
  lemma CallBegins(c: Config, a: Recorder, w: nat, r: Record) returns (b: Recorder)
    requires Reachable(c, a) && w < |a.writers| && a.writers[w].Outside? && a.start != INT64_MAX && a.start != -1
    requires Accepts(c, r.value)
    ensures Leads(c, a, [Enter(w), LoadActive(w), BeginRecord(w, r)], b)
    ensures SameButWriters(a, b) && b.hists == a.hists && InCall(c, b, w)
    ensures b.writers == a.writers[w := b.writers[w]] && b.writers[w].h == a.active && b.writers[w].op == AddSlot(r)
    ensures a.active in a.logs && b.logs == a.logs[a.active := a.logs[a.active] + [r]]
  {
    ActiveCanAct(c, a, AddSlot(r));
    var a1 := Step(c, a, Enter(w));
    var a2 := Step(c, a1, LoadActive(w));
    b := Step(c, a2, BeginRecord(w, r));
    LeadsFirst(c, a2, BeginRecord(w, r), [], b);
    LeadsFirst(c, a1, LoadActive(w), [BeginRecord(w, r)], b);
    LeadsFirst(c, a, Enter(w), [LoadActive(w), BeginRecord(w, r)], b);
  }

  lemma CallEnds(c: Config, a: Recorder, w: nat) returns (b: Recorder)
    requires w < |a.writers| && a.writers[w].Inside? && a.writers[w].op.Idle?
    ensures Leads(c, a, [Exit(w)], b)
    ensures SameButWriters(a, b) && b.hists == a.hists && b.logs == a.logs && b.writers == a.writers[w := Outside]
  {
    b := Step(c, a, Exit(w));
    LeadsFirst(c, a, Exit(w), [], b);
  }

  /** A writer inside completes its call and leaves. */
  lemma CallFinishes(c: Config, a: Recorder, w: nat, s0: State, r: Record)
    returns (acts: seq<Action>, b: Recorder, s: State)
    requires InCall(c, a, w)
    ensures Leads(c, a, acts, b) && RecordsOf(acts) == multiset{}
    ensures SameButWriters(a, b) && b.logs == a.logs && b.writers == a.writers[w := Outside]
    ensures b.hists == a.hists[a.writers[w].h := s] && |s.counts| == c.countsLen
    ensures OnItsOwn(c, a, w, s0, r) ==> s == Recorded(c, s0, r)
  {
    var ops;
    ops, s := OpFinishes(c, a, w, s0, r);
    var a1 := WithOp(a, w, s, Idle);
    b := CallEnds(c, a1, w);
    acts := ops + [Exit(w)];
    LeadsOn(c, a, ops, a1, [Exit(w)], b);
    RecordsConcat(ops, [Exit(w)]);
    RecordsOne(Exit(w));
  }

  /** A writer that is outside can complete a record of any value in range, whatever the others are
      doing: the record is then in the log of the active histogram and in no other, and that
      histogram has changed as hdr_record_values would have changed it. */
  lemma RecordCompletes(c: Config, a: Recorder, w: nat, r: Record) returns (acts: seq<Action>, b: Recorder)
    requires Reachable(c, a) && w < |a.writers| && a.writers[w].Outside? && a.start != INT64_MAX && a.start != -1
    requires Accepts(c, r.value)
    ensures Leads(c, a, acts, b) && RecordsOf(acts) == multiset{r}
    ensures SameButWriters(a, b) && b.writers == a.writers
    ensures a.active in a.logs && b.logs == a.logs[a.active := a.logs[a.active] + [r]]
    ensures a.active in a.hists && |a.hists[a.active].counts| == c.countsLen
    ensures b.hists == a.hists[a.active := Recorded(c, a.hists[a.active], r)]
    ensures var i := CountsIndexFor(c, r.value);
      b.hists[a.active].counts[i] == a.hists[a.active].counts[i] + r.count
  {
    var a1 := CallBegins(c, a, w, r);
    var rest, s;
    rest, b, s := CallFinishes(c, a1, w, a.hists[a.active], r);
    var begin := [Enter(w), LoadActive(w), BeginRecord(w, r)];
    LeadsOn(c, a, begin, a1, rest, b);
    acts := begin + rest;
    RecordsConcat(begin, rest);
    RecordsOfCall(w, r);
  }

  lemma RecordsOfCall(w: nat, r: Record)
    ensures RecordsOf([Enter(w), LoadActive(w), BeginRecord(w, r)]) == multiset{r}
  {
    RecordsConcat([Enter(w), LoadActive(w)], [BeginRecord(w, r)]);
    RecordsConcat([Enter(w)], [LoadActive(w)]);
    RecordsOne(Enter(w));
    RecordsOne(LoadActive(w));
    RecordsOne(BeginRecord(w, r));
    assert [Enter(w)] + [LoadActive(w)] + [BeginRecord(w, r)] == [Enter(w), LoadActive(w), BeginRecord(w, r)];
  }

  /** A writer in flight can leave on its own. */
  lemma WriterLeaves(c: Config, a: Recorder, w: nat) returns (acts: seq<Action>, b: Recorder)
    requires Reachable(c, a) && w < |a.writers|
    ensures Leads(c, a, acts, b) && RecordsOf(acts) == multiset{}
    ensures SameButWriters(a, b) && b.logs == a.logs && b.writers == a.writers[w := Outside]
  {
    if a.writers[w].Outside? {
      acts, b := [], a;
    } else {
      var load, a1 := CallLoads(c, a, w);
      var rest, s;
      rest, b, s := CallFinishes(c, a1, w, EmptyState(c), Record(0, 0));
      LeadsOn(c, a, load, a1, rest, b);
      acts := load + rest;
      RecordsConcat(load, rest);
    }
  }

  lemma CallLoads(c: Config, a: Recorder, w: nat) returns (acts: seq<Action>, b: Recorder)
    requires Reachable(c, a) && w < |a.writers| && !a.writers[w].Outside?
    ensures Leads(c, a, acts, b) && RecordsOf(acts) == multiset{}
    ensures SameButWriters(a, b) && b.hists == a.hists && b.logs == a.logs && InCall(c, b, w)
    ensures b.writers == a.writers[w := b.writers[w]]
  {
    if a.writers[w].Entered? {
      acts, b := [LoadActive(w)], Step(c, a, LoadActive(w));
      LeadsFirst(c, a, LoadActive(w), [], b);
      RecordsOne(LoadActive(w));
      ActiveCanAct(c, a, Idle);
    } else {
      acts, b := [], a;
      HeldCanAct(c, a, w);
    }
  }

  lemma HeldCanAct(c: Config, a: Recorder, w: nat)
    requires Reachable(c, a) && w < |a.writers| && a.writers[w].Inside?
    ensures InCall(c, a, w)
  {
    var h := a.writers[w].h;
    ReachableInv(c, a);
    HeldExists(c, a, w);
    assert AtomicInv(c, a.hists[h], OpsOn(a.writers, h), a.logs[h]);
    assert WellPlaced(OpsOn(a.writers, h)[w], a.logs[h]);
  }

  ghost predicate AllOutside(writers: seq<Writer>, n: nat) {
    n <= |writers| && forall w | 0 <= w < n :: writers[w].Outside?
  }

  /** So can all of them, and nothing else changes meanwhile but the histograms they record into. */
  lemma {:induction false} WritersLeave(c: Config, a: Recorder, n: nat) returns (acts: seq<Action>, b: Recorder)
    requires Reachable(c, a) && n <= |a.writers|
    ensures Leads(c, a, acts, b) && RecordsOf(acts) == multiset{}
    ensures SameButWriters(a, b) && b.logs == a.logs && |b.writers| == |a.writers| && AllOutside(b.writers, n)
  {
    if n == 0 {
      acts, b := [], a;
    } else {
      var p, a1 := WritersLeave(c, a, n - 1);
      ReachableOn(c, a, p, a1);
      var q;
      q, b := WriterLeaves(c, a1, n - 1);
      acts := p + q;
      LeadsOn(c, a, p, a1, q, b);
      RecordsConcat(p, q);
    }
  }

  // ---------- samplers ----------

  /** What the sampler that holds the lock does next. */
  function NextOf(s: Sampler, k: nat): Action
    requires InCritical(s)
  {
    match s
    case Locked(_) => LoadOld(k)
    case Loaded(_, _) => StoreActive(k)
    case Swapped(_) => ReadPhase(k)
    case PhaseRead(_, _) => ClearEnd(k)
    case Cleared(_, _) => ExchangeStart(k)
    case Draining(_, _, _) => CheckEnd(k)
    case CaughtUp(_) => Unlock(k)
  }

  function StagesLeft(s: Sampler): nat {
    match s
    case Locked(_) => 7
    case Loaded(_, _) => 6
    case Swapped(_) => 5
    case PhaseRead(_, _) => 4
    case Cleared(_, _) => 3
    case Draining(_, _, _) => 2
    case CaughtUp(_) => 1
    case _ => 0
  }

  /** The histogram that the holder of the lock returns, and the active one from then on. */
  function ToReturn(a: Recorder, s: Sampler): Id {
    match Taken(s)
    case Some(h) => h
    case None => a.active
  }

  function ToActivate(a: Recorder, s: Sampler): Id {
    if HasSpare(s) then s.spare else a.active
  }

  /** No writer is in flight, and sampler k holds the lock. */
  ghost predicate HoldsAlone(a: Recorder, k: nat) {
    k < |a.samplers| && a.lock == Some(k) && InCritical(a.samplers[k]) && AllOutside(a.writers, |a.writers|)
  }

  /** What a sample returns has been found. */
  ghost predicate HasReturned(a: Recorder, b: Recorder, k: nat)
    requires k < |a.samplers|
  {
    var s := a.samplers[k];
    var h := ToReturn(a, s);
    && h in a.hists && h in a.logs
    && b.returned == a.returned + [Sample(a.hists[h], a.logs[h])]
    && b.active == ToActivate(a, s) && b.owned == a.owned + {h}
    && b.samplers == a.samplers[k := Ready] && b.lock == None
    && b.writers == a.writers && b.hists == a.hists && b.logs == a.logs
  }

  /** Without writers in flight the wait is over at once. */
  lemma DrainedWhenAlone(a: Recorder, k: nat)
    requires PhaserInv(a) && HoldsAlone(a, k) && a.samplers[k].Draining?
    ensures End(a, !a.samplers[k].nextEven) == a.samplers[k].startAtFlip
  {
    NoneInFlight(a.writers, true);
    NoneInFlight(a.writers, false);
  }

  lemma StageFacts(c: Config, a: Recorder, k: nat)
    requires Reachable(c, a) && HoldsAlone(a, k)
    ensures OwnershipInv(c, a) && PhaserInv(a)
  {
    ReachableInv(c, a);
  }

  lemma StageEnabled(c: Config, a: Recorder, k: nat)
    requires OwnershipInv(c, a) && HoldsAlone(a, k)
    ensures SamplerEnabled(a, NextOf(a.samplers[k], k))
    ensures PrivateInv(c, a, k) && a.active in a.hists && a.active in a.logs
  {
    assert PrivateInv(c, a, k);
  }

  lemma StageAdvances(c: Config, a: Recorder, k: nat)
    requires HoldsAlone(a, k) && !a.samplers[k].CaughtUp? && PrivateInv(c, a, k)
    requires a.samplers[k].Draining? ==> End(a, !a.samplers[k].nextEven) == a.samplers[k].startAtFlip
    requires SamplerEnabled(a, NextOf(a.samplers[k], k))
    ensures var b := Step(c, a, NextOf(a.samplers[k], k));
      && HoldsAlone(b, k) && StagesLeft(b.samplers[k]) < StagesLeft(a.samplers[k])
      && b.samplers == a.samplers[k := b.samplers[k]]
      && ToReturn(b, b.samplers[k]) == ToReturn(a, a.samplers[k])
      && ToActivate(b, b.samplers[k]) == ToActivate(a, a.samplers[k])
      && b.returned == a.returned && b.owned == a.owned
      && b.writers == a.writers && b.hists == a.hists && b.logs == a.logs
  {
  }

  lemma HolderAdvances(c: Config, a: Recorder, k: nat)
    requires Reachable(c, a) && HoldsAlone(a, k) && !a.samplers[k].CaughtUp?
    ensures SamplerEnabled(a, NextOf(a.samplers[k], k))
    ensures var b := Step(c, a, NextOf(a.samplers[k], k));
      && HoldsAlone(b, k) && StagesLeft(b.samplers[k]) < StagesLeft(a.samplers[k])
      && forall d :: HasReturned(b, d, k) ==> HasReturned(a, d, k)
  {
    StageFacts(c, a, k);
    StageEnabled(c, a, k);
    if a.samplers[k].Draining? { DrainedWhenAlone(a, k); }
    StageAdvances(c, a, k);
  }

  lemma LastStage(c: Config, a: Recorder, k: nat)
    requires Reachable(c, a) && HoldsAlone(a, k) && a.samplers[k].CaughtUp?
    ensures Enabled(c, a, Unlock(k)) && HasReturned(a, Step(c, a, Unlock(k)), k)
  {
    StageFacts(c, a, k);
    StageEnabled(c, a, k);
  }

  /** Then the sampler that holds the lock returns what was active before, or what it has taken out
      already. */
  lemma {:induction false} HolderReturns(c: Config, a: Recorder, k: nat) returns (acts: seq<Action>, b: Recorder)
    requires Reachable(c, a) && HoldsAlone(a, k)
    ensures Leads(c, a, acts, b) && RecordsOf(acts) == multiset{} && HasReturned(a, b, k)
    decreases StagesLeft(a.samplers[k])
  {
    var act := NextOf(a.samplers[k], k);
    RecordsOne(act);
    if a.samplers[k].CaughtUp? {
      LastStage(c, a, k);
      acts, b := [act], Step(c, a, act);
      LeadsFirst(c, a, act, [], b);
    } else {
      HolderAdvances(c, a, k);
      var a1 := Step(c, a, act);
      LeadsFirst(c, a, act, [], a1);
      ReachableOn(c, a, [act], a1);
      var rest;
      rest, b := HolderReturns(c, a1, k);
      acts := [act] + rest;
      LeadsFirst(c, a, act, rest, b);
      RecordsConcat([act], rest);
    }
  }

  /** No writer is in flight and no sampler holds the lock. */
  ghost predicate Calm(a: Recorder) {
    AllOutside(a.writers, |a.writers|) && a.lock.None?
  }

  lemma LockIsHeld(c: Config, a: Recorder)
    requires Reachable(c, a) && a.lock.Some?
    ensures a.lock.value < |a.samplers| && InCritical(a.samplers[a.lock.value])
  {
    ReachableInv(c, a);
  }

  /** From any state that a run reaches, the writers in flight can leave and the holder of the lock
      can return its sample: no one waits for ever for a thread that cannot go on. */
  lemma CalmsDown(c: Config, a: Recorder) returns (acts: seq<Action>, b: Recorder)
    requires Reachable(c, a)
    ensures Leads(c, a, acts, b) && RecordsOf(acts) == multiset{} && Calm(b)
    ensures |b.writers| == |a.writers| && |b.samplers| == |a.samplers|
    ensures forall k | 0 <= k < |a.samplers| && a.lock != Some(k) :: b.samplers[k] == a.samplers[k]
    ensures |b.returned| == |a.returned| + if a.lock.Some? then 1 else 0
  {
    var p, a1 := WritersLeave(c, a, |a.writers|);
    acts, b := p, a1;
    if a.lock.Some? {
      ReachableOn(c, a, p, a1);
      LockIsHeld(c, a1);
      var q;
      q, b := HolderReturns(c, a1, a.lock.value);
      acts := p + q;
      LeadsOn(c, a, p, a1, q, b);
      RecordsConcat(p, q);
    }
  }

  /** A sampler gets a histogram to put in place, one that its caller owns or a new one. */
  lemma GetsSpare(c: Config, a: Recorder, k: nat, h: Id) returns (acts: seq<Action>, b: Recorder)
    requires k < |a.samplers| && a.samplers[k].Ready? && (h in a.owned || h !in a.hists)
    ensures Leads(c, a, acts, b) && RecordsOf(acts) == multiset{} && b == WithSpare(c, a, k, h)
  {
    b := WithSpare(c, a, k, h);
    if h in a.owned {
      acts := [Recycle(k, h)];
      LeadsFirst(c, a, Recycle(k, h), [], b);
      RecordsOne(Recycle(k, h));
    } else {
      acts := [LoadForSize(k)] + [Allocate(k, h)];
      var a1 := Step(c, a, LoadForSize(k));
      assert Step(c, a1, Allocate(k, h)) == b;
      LeadsFirst(c, a1, Allocate(k, h), [], b);
      LeadsFirst(c, a, LoadForSize(k), [Allocate(k, h)], b);
      RecordsConcat([LoadForSize(k)], [Allocate(k, h)]);
      RecordsOne(LoadForSize(k));
      RecordsOne(Allocate(k, h));
    }
  }

  lemma GetsLock(c: Config, a: Recorder, k: nat, h: Id) returns (acts: seq<Action>, b: Recorder)
    requires a.lock.None? && k < |a.samplers| && a.samplers[k].Ready? && (h in a.owned || h !in a.hists)
    ensures Leads(c, a, acts, b) && RecordsOf(acts) == multiset{}
    ensures b == WithSpare(c, a, k, h).(samplers := a.samplers[k := Locked(h)], lock := Some(k))
  {
    var first, a1 := GetsSpare(c, a, k, h);
    b := Step(c, a1, Lock(k));
    acts := first + [Lock(k)];
    LeadsFirst(c, a1, Lock(k), [], b);
    LeadsOn(c, a, first, a1, [Lock(k)], b);
    RecordsConcat(first, [Lock(k)]);
    RecordsOne(Lock(k));
  }

  /** When no writer is in flight and the lock is free, a sampler can take its sample: it returns the
      active histogram and puts an empty one in its place, one that its caller owned or a new one. */
  lemma SampleCompletes(c: Config, a: Recorder, k: nat, h: Id) returns (acts: seq<Action>, b: Recorder)
    requires Reachable(c, a) && Calm(a) && k < |a.samplers| && a.samplers[k].Ready?
    requires h in a.owned || h !in a.hists
    ensures Leads(c, a, acts, b) && RecordsOf(acts) == multiset{} && Calm(b)
    ensures a.active in a.hists && a.active in a.logs && h != a.active
    ensures b.returned == a.returned + [Sample(a.hists[a.active], a.logs[a.active])]
    ensures b.active == h && b.hists == a.hists[h := EmptyState(c)] && b.logs == a.logs[h := []]
    ensures b.owned == a.owned - {h} + {a.active} && b.samplers == a.samplers && b.writers == a.writers
  {
    ActiveCanAct(c, a, Idle);
    var p, a1 := GetsLock(c, a, k, h);
    ReachableOn(c, a, p, a1);
    var q;
    q, b := HolderReturns(c, a1, k);
    SampleTaken(c, a, k, h, a1, b);
    acts := p + q;
    LeadsOn(c, a, p, a1, q, b);
    RecordsConcat(p, q);
  }

  lemma SampleTaken(c: Config, a: Recorder, k: nat, h: Id, a1: Recorder, b: Recorder)
    requires k < |a.samplers| && a.samplers[k].Ready? && a.active in a.hists && a.active in a.logs && a.active != h
    requires a1 == WithSpare(c, a, k, h).(samplers := a.samplers[k := Locked(h)], lock := Some(k))
    requires HasReturned(a1, b, k)
    ensures b.returned == a.returned + [Sample(a.hists[a.active], a.logs[a.active])]
    ensures b.active == h && b.hists == a.hists[h := EmptyState(c)] && b.logs == a.logs[h := []]
    ensures b.owned == a.owned - {h} + {a.active} && b.samplers == a.samplers && b.writers == a.writers
    ensures b.lock == None
  {
  }
}
