/** Every step of the interval recorder keeps the invariant of module IntervalRecorder, and what
    follows for whole runs. */
module RecorderSafety {
  import opened Bits
  import opened BucketMath
  import opened Recording
  import opened AtomicRecording
  import opened Results
  import opened IntervalRecorder

  // ---------- the lock ----------

  lemma WriterKeepsHolder(c: Config, a: Recorder, act: Action)
    requires WriterEnabled(c, a, act)
    ensures var b := Step(c, a, act); b.samplers == a.samplers && b.lock == a.lock && Holder(b) == Holder(a)
  {
  }

  /** A step of a sampler outside the critical section changes nothing for the lock holder, and
      one inside is a step of the holder. */
  lemma SamplerHolder(c: Config, a: Recorder, act: Action)
    requires LockInv(a) && SamplerEnabled(a, act)
    ensures var b := Step(c, a, act);
      && LockInv(b)
      && (if act.Recycle? || act.LoadForSize? || act.Allocate? then Holder(b) == Holder(a)
          else if act.Lock? then Holder(a) == Ready && Holder(b) == b.samplers[act.k]
          else if act.Unlock? then Holder(a) == a.samplers[act.k] && Holder(b) == Ready
          else Holder(a) == a.samplers[act.k] && Holder(b) == b.samplers[act.k])
  {
    var b := Step(c, a, act);
    assert forall j | 0 <= j < |a.samplers| && j != act.k :: b.samplers[j] == a.samplers[j];
  }

  // ---------- the phaser ----------

  lemma EnterKeepsPhaser(c: Config, a: Recorder, w: nat)
    requires PhaserInv(a) && WriterEnabled(c, a, Enter(w))
    ensures PhaserInv(Step(c, a, Enter(w)))
  {
    var b := Step(c, a, Enter(w));
    assert b.start == a.start + 1;
    InFlightUpdate(a.writers, w, b.writers[w], true);
    InFlightUpdate(a.writers, w, b.writers[w], false);
  }

  lemma SamePhaseKeepsPhaser(c: Config, a: Recorder, act: Action)
    requires PhaserInv(a) && WriterEnabled(c, a, act) && (act.LoadActive? || act.BeginRecord? || act.Operate?)
    ensures PhaserInv(Step(c, a, act))
  {
    var b := Step(c, a, act);
    InFlightUpdate(a.writers, act.w, b.writers[act.w], true);
    InFlightUpdate(a.writers, act.w, b.writers[act.w], false);
  }

  lemma ExitStep(c: Config, a: Recorder, w: nat)
    requires PhaserInv(a) && WriterEnabled(c, a, Exit(w))
    ensures var even, b := IsEven(a.writers[w].epoch), Step(c, a, Exit(w));
      && End(b, even) == End(a, even) + 1 && End(b, !even) == End(a, !even)
      && InFlight(b.writers, even) == InFlight(a.writers, even) - 1
      && InFlight(b.writers, !even) == InFlight(a.writers, !even)
  {
    var even := IsEven(a.writers[w].epoch);
    NoneInFlight(a.writers, even);
    assert End(a, even) + 1 <= INT64_MAX;
    InFlightUpdate(a.writers, w, Outside, true);
    InFlightUpdate(a.writers, w, Outside, false);
  }

  lemma ExitKeepsPhaser(c: Config, a: Recorder, w: nat)
    requires PhaserInv(a) && WriterEnabled(c, a, Exit(w))
    ensures PhaserInv(Step(c, a, Exit(w)))
  {
    ExitStep(c, a, w);
    NoneInFlight(a.writers, IsEven(a.writers[w].epoch));
  }

  lemma SamplerKeepsPhaser(c: Config, a: Recorder, act: Action)
    requires LockInv(a) && PhaserInv(a) && SamplerEnabled(a, act)
    ensures PhaserInv(Step(c, a, act))
  {
    SamplerHolder(c, a, act);
  }

  // ---------- ownership of histograms ----------

  lemma WriterKeepsOwnership(c: Config, a: Recorder, act: Action)
    requires OwnershipInv(c, a) && WritersInv(a) && LockInv(a) && WriterEnabled(c, a, act)
    ensures OwnershipInv(c, Step(c, a, act))
  {
    var b := Step(c, a, act);
    HeldExists(c, a, act.w);
    WriterKeepsKeys(c, a, act);
    forall k | 0 <= k < |a.samplers|
      ensures PrivateInv(c, b, k)
    {
      assert PrivateInv(c, a, k);
      if HasSpare(a.samplers[k]) { SpareNotHeld(c, a, k, act.w); }
    }
  }

  /** What a writer holds has been allocated. */
  lemma HeldExists(c: Config, a: Recorder, w: nat)
    requires OwnershipInv(c, a) && WritersInv(a) && LockInv(a) && w < |a.writers|
    ensures a.writers[w].Inside? ==> a.writers[w].h in a.hists && a.writers[w].h in a.logs
  {
    if a.writers[w].Inside? {
      assert MayHold(a, a.writers[w]);
      if a.lock.Some? { assert PrivateInv(c, a, a.lock.value); }
    }
  }

  /** No writer holds a spare. */
  lemma SpareNotHeld(c: Config, a: Recorder, k: nat, w: nat)
    requires OwnershipInv(c, a) && WritersInv(a) && LockInv(a) && w < |a.writers|
    requires k < |a.samplers| && HasSpare(a.samplers[k])
    ensures a.writers[w].Inside? ==> a.writers[w].h != a.samplers[k].spare
  {
    if a.writers[w].Inside? {
      assert MayHold(a, a.writers[w]) && PrivateInv(c, a, k);
      if a.lock.Some? {
        assert k < a.lock.value ==> Apart(a.samplers[k], a.samplers[a.lock.value]);
        assert a.lock.value < k ==> Apart(a.samplers[a.lock.value], a.samplers[k]);
      }
    }
  }

  lemma SamplerKeepsOwnership(c: Config, a: Recorder, act: Action)
    requires OwnershipInv(c, a) && LockInv(a) && SamplerEnabled(a, act)
    ensures OwnershipInv(c, Step(c, a, act))
  {
    var b := Step(c, a, act);
    assert PrivateInv(c, a, act.k);
    forall k | 0 <= k < |a.samplers|
      ensures PrivateInv(c, b, k)
    {
      SamplerKeepsPrivate(c, a, act, k);
    }
    SamplerKeepsApart(c, a, act);
  }

  lemma SamplerKeepsApart(c: Config, a: Recorder, act: Action)
    requires OwnershipInv(c, a) && SamplerEnabled(a, act)
    ensures forall j, k | 0 <= j < k < |a.samplers| :: Apart(Step(c, a, act).samplers[j], Step(c, a, act).samplers[k])
  {
    var b := Step(c, a, act);
    forall j, k | 0 <= j < k < |a.samplers|
      ensures Apart(b.samplers[j], b.samplers[k])
    {
      assert Apart(a.samplers[j], a.samplers[k]) && PrivateInv(c, a, j) && PrivateInv(c, a, k);
    }
  }

  lemma SamplerKeepsPrivate(c: Config, a: Recorder, act: Action, k: nat)
    requires OwnershipInv(c, a) && LockInv(a) && SamplerEnabled(a, act) && k < |a.samplers|
    ensures PrivateInv(c, Step(c, a, act), k)
  {
    if k == act.k {
      OwnStepKeepsPrivate(c, a, act);
    } else {
      OtherStepKeepsPrivate(c, a, act, k);
    }
  }

  lemma OwnStepKeepsPrivate(c: Config, a: Recorder, act: Action)
    requires OwnershipInv(c, a) && LockInv(a) && SamplerEnabled(a, act)
    ensures PrivateInv(c, Step(c, a, act), act.k)
  {
    assert PrivateInv(c, a, act.k);
  }

  lemma OtherStepKeepsPrivate(c: Config, a: Recorder, act: Action, k: nat)
    requires OwnershipInv(c, a) && LockInv(a) && SamplerEnabled(a, act) && k < |a.samplers| && k != act.k
    ensures PrivateInv(c, Step(c, a, act), k)
  {
    assert PrivateInv(c, a, k) && PrivateInv(c, a, act.k);
    assert k < act.k ==> Apart(a.samplers[k], a.samplers[act.k]);
    assert act.k < k ==> Apart(a.samplers[act.k], a.samplers[k]);
  }

  // ---------- who holds what ----------

  lemma WriterKeepsWriters(c: Config, a: Recorder, act: Action)
    requires WritersInv(a) && WriterEnabled(c, a, act)
    ensures WritersInv(Step(c, a, act))
  {
    var b := Step(c, a, act);
    WriterKeepsHolder(c, a, act);
    forall w | 0 <= w < |b.writers| && b.writers[w].Inside?
      ensures MayHold(b, b.writers[w])
    {
      assert a.writers[w].Inside? ==> MayHold(a, a.writers[w]);
    }
  }

  lemma SamplerKeepsWriters(c: Config, a: Recorder, act: Action)
    requires LockInv(a) && PhaserInv(a) && OwnershipInv(c, a) && WritersInv(a) && SamplerEnabled(a, act)
    ensures WritersInv(Step(c, a, act))
  {
    var b := Step(c, a, act);
    SamplerHolder(c, a, act);
    assert PrivateInv(c, a, act.k);
    forall w | 0 <= w < |b.writers| && b.writers[w].Inside?
      ensures MayHold(b, b.writers[w])
    {
      assert MayHold(a, a.writers[w]);
      OnlyCurrentPhase(a, w);
    }
  }

  /** Outside a flip, and when the old phase has been drained, all writers are of the current
      phase. */
  lemma OnlyCurrentPhase(a: Recorder, w: nat)
    requires PhaserInv(a) && w < |a.writers| && !a.writers[w].Outside?
    ensures !Holder(a).Draining? ==> IsEven(a.writers[w].epoch) == IsEven(a.start)
    ensures Holder(a).Draining? && End(a, !Holder(a).nextEven) == Holder(a).startAtFlip ==>
      IsEven(a.writers[w].epoch) == IsEven(a.start)
  {
    NoneInFlight(a.writers, !IsEven(a.start));
  }

  // ---------- contents ----------

  lemma OpsOnUpdate(writers: seq<Writer>, w: nat, next: Writer, h: Id)
    requires w < |writers|
    ensures OpsOn(writers[w := next], h) == OpsOn(writers, h)[w := OpOn(next, h)]
  {
  }

  lemma WriterKeepsKeys(c: Config, a: Recorder, act: Action)
    requires WriterEnabled(c, a, act)
    requires a.writers[act.w].Inside? ==> a.writers[act.w].h in a.hists && a.writers[act.w].h in a.logs
    ensures Step(c, a, act).hists.Keys == a.hists.Keys && Step(c, a, act).logs.Keys == a.logs.Keys
  {
  }

  lemma WriterKeepsContents(c: Config, a: Recorder, act: Action)
    requires ContentsInv(c, a) && WriterEnabled(c, a, act)
    requires a.writers[act.w].Inside? ==> a.writers[act.w].h in a.hists && a.writers[act.w].h in a.logs
    ensures ContentsInv(c, Step(c, a, act))
  {
    WriterKeepsKeys(c, a, act);
    forall h | h in a.hists
      ensures AtomicInv(c, Step(c, a, act).hists[h], OpsOn(Step(c, a, act).writers, h), Step(c, a, act).logs[h])
    {
      WriterKeepsOne(c, a, act, h);
    }
  }

  lemma WriterKeepsOne(c: Config, a: Recorder, act: Action, h: Id)
    requires WriterEnabled(c, a, act) && h in a.hists && h in a.logs
    requires a.writers[act.w].Inside? ==> a.writers[act.w].h in a.hists
    requires AtomicInv(c, a.hists[h], OpsOn(a.writers, h), a.logs[h])
    ensures var b := Step(c, a, act);
      h in b.hists && h in b.logs && AtomicInv(c, b.hists[h], OpsOn(b.writers, h), b.logs[h])
  {
    var b := Step(c, a, act);
    var ops, w := OpsOn(a.writers, h), act.w;
    OpsOnUpdate(a.writers, w, b.writers[w], h);
    if act.BeginRecord? && a.writers[w].h == h {
      BeginKeepsInv(c, a.hists[h], ops, a.logs[h], w, act.r);
    } else if act.Operate? && a.writers[w].h == h {
      MicroKeepsInv(c, a.hists[h], ops, a.logs[h], w, act.s, act.t);
    } else {
      assert ops[w := ops[w]] == ops;
    }
  }

  lemma SamplerKeepsContents(c: Config, a: Recorder, act: Action)
    requires ContentsInv(c, a) && OwnershipInv(c, a) && WritersInv(a) && LockInv(a) && SamplerEnabled(a, act)
    requires c.highest <= INT64_MAX
    ensures ContentsInv(c, Step(c, a, act))
  {
    if act.Recycle? || act.Allocate? {
      SpareIsIdle(c, a, act.h);
      SpareKeepsContents(c, a, act.k, act.h);
    }
  }

  lemma SpareIsIdle(c: Config, a: Recorder, h: Id)
    requires OwnershipInv(c, a) && WritersInv(a) && LockInv(a) && (h in a.owned || h !in a.hists)
    ensures forall w | 0 <= w < |a.writers| :: OpOn(a.writers[w], h).Idle?
  {
    forall w | 0 <= w < |a.writers|
      ensures OpOn(a.writers[w], h).Idle?
    {
      HeldExists(c, a, w);
      OwnedNotHeld(c, a, h, w);
    }
  }

  lemma SpareKeepsContents(c: Config, a: Recorder, k: nat, h: Id)
    requires ContentsInv(c, a) && k < |a.samplers| && c.highest <= INT64_MAX
    requires forall w | 0 <= w < |a.writers| :: OpOn(a.writers[w], h).Idle?
    ensures ContentsInv(c, WithSpare(c, a, k, h))
  {
    InitialInv(c, OpsOn(a.writers, h));
  }

  /** A histogram that belongs to a caller is held by no writer. */
  lemma OwnedNotHeld(c: Config, a: Recorder, h: Id, w: nat)
    requires OwnershipInv(c, a) && WritersInv(a) && LockInv(a) && w < |a.writers|
    ensures h in a.owned && a.writers[w].Inside? ==> a.writers[w].h != h
  {
    if h in a.owned && a.writers[w].Inside? {
      assert MayHold(a, a.writers[w]);
      if a.lock.Some? { assert PrivateInv(c, a, a.lock.value); }
    }
  }

  // ---------- what is held ----------

  /** The record that a step begins. */
  function RecordOf(act: Action): multiset<Record> {
    if act.BeginRecord? then multiset{act.r} else multiset{}
  }

  /** A step adds the record that it begins to what is held, and loses nothing. */
  lemma StepHolds(c: Config, a: Recorder, act: Action)
    requires OwnershipInv(c, a) && WritersInv(a) && LockInv(a) && Enabled(c, a, act)
    ensures Held(Step(c, a, act)) == Held(a) + RecordOf(act)
  {
    if act.BeginRecord? {
      assert MayHold(a, a.writers[act.w]);
      TakenIsNotActive(c, a);
      BeginHolds(c, a, act.w, act.r);
    } else if WriterEnabled(c, a, act) {
      WriterKeepsHolder(c, a, act);
    } else {
      SamplerHolds(c, a, act);
    }
  }

  lemma BeginHolds(c: Config, a: Recorder, w: nat, r: Record)
    requires WriterEnabled(c, a, BeginRecord(w, r))
    requires Taken(Holder(a)) != Some(a.active)
    requires a.writers[w].h == a.active || Taken(Holder(a)) == Some(a.writers[w].h)
    ensures Held(Step(c, a, BeginRecord(w, r))) == Held(a) + multiset{r}
  {
    var b, h := Step(c, a, BeginRecord(w, r)), a.writers[w].h;
    WriterKeepsHolder(c, a, BeginRecord(w, r));
    LogOneMore(a.logs, h, r, Taken(Holder(a)));
    LogOneMore(a.logs, h, r, Some(a.active));
    OneMore(Collected(a.returned), BeingDrained(a), LogOf(a.logs, Some(a.active)), r, h != a.active);
  }

  lemma OneMore(returned: multiset<Record>, drained: multiset<Record>, active: multiset<Record>, r: Record, late: bool)
    ensures var one, none := multiset{r}, multiset{};
      returned + (drained + if late then one else none) + (active + if late then none else one)
      == returned + drained + active + one
  {
  }

  lemma TakenIsNotActive(c: Config, a: Recorder)
    requires OwnershipInv(c, a) && LockInv(a)
    ensures Taken(Holder(a)) != Some(a.active) && (Taken(Holder(a)).Some? ==> Taken(Holder(a)).value in a.logs)
  {
    if a.lock.Some? { assert PrivateInv(c, a, a.lock.value); }
  }

  lemma LogOneMore(logs: map<Id, seq<Record>>, h: Id, r: Record, g: Option<Id>)
    requires h in logs
    ensures LogOf(logs[h := logs[h] + [r]], g) == LogOf(logs, g) + if g == Some(h) then multiset{r} else multiset{}
  {
  }

  lemma SamplerHolds(c: Config, a: Recorder, act: Action)
    requires OwnershipInv(c, a) && LockInv(a) && SamplerEnabled(a, act)
    ensures Held(Step(c, a, act)) == Held(a)
  {
    assert PrivateInv(c, a, act.k);
    if act.Recycle? || act.Allocate? {
      SpareHolds(c, a, act);
    } else if act.Unlock? {
      DrainedIsReturned(c, a, act.k);
      NothingMore(Collected(a.returned) + BeingDrained(a));
    } else if act.StoreActive? {
      SwapHolds(c, a, act.k);
    } else {
      FlipHolds(c, a, act);
    }
  }

  lemma FlipHolds(c: Config, a: Recorder, act: Action)
    requires LockInv(a) && SamplerEnabled(a, act)
    requires !act.Recycle? && !act.Allocate? && !act.Unlock? && !act.StoreActive?
    ensures Held(Step(c, a, act)) == Held(a)
  {
    FlipKeeps(c, a, act);
    SameHeld(a, Step(c, a, act));
  }

  lemma FlipKeeps(c: Config, a: Recorder, act: Action)
    requires LockInv(a) && SamplerEnabled(a, act)
    requires !act.Recycle? && !act.Allocate? && !act.Unlock? && !act.StoreActive?
    ensures var b := Step(c, a, act);
      b.returned == a.returned && b.logs == a.logs && b.active == a.active && Taken(Holder(b)) == Taken(Holder(a))
  {
    SamplerHolder(c, a, act);
  }

  lemma SameHeld(a: Recorder, b: Recorder)
    requires b.returned == a.returned && b.logs == a.logs && b.active == a.active
    requires Taken(Holder(b)) == Taken(Holder(a))
    ensures Held(b) == Held(a)
  {
  }

  lemma SpareHolds(c: Config, a: Recorder, act: Action)
    requires OwnershipInv(c, a) && LockInv(a) && SamplerEnabled(a, act)
    requires act.Recycle? || act.Allocate?
    ensures Held(Step(c, a, act)) == Held(a)
  {
    SamplerHolder(c, a, act);
    TakenIsNotActive(c, a);
    if a.lock.Some? { assert PrivateInv(c, a, a.lock.value); }
    assert LogOf(Step(c, a, act).logs, Taken(Holder(a))) == LogOf(a.logs, Taken(Holder(a)));
  }

  lemma SwapHolds(c: Config, a: Recorder, k: nat)
    requires LockInv(a) && SamplerEnabled(a, StoreActive(k)) && PrivateInv(c, a, k)
    ensures Held(Step(c, a, StoreActive(k))) == Held(a)
  {
    var b := Step(c, a, StoreActive(k));
    SamplerHolder(c, a, StoreActive(k));
    assert BeingDrained(a) == multiset{};
    assert BeingDrained(b) == LogOf(a.logs, Some(a.active));
    assert LogOf(b.logs, Some(b.active)) == multiset{};
  }

  lemma CollectedOneMore(samples: seq<Sample>, sample: Sample)
    ensures Collected(samples + [sample]) == Collected(samples) + multiset(sample.log)
  {
    assert (samples + [sample])[..|samples|] == samples;
  }

  /** What was being drained is returned. */
  lemma DrainedIsReturned(c: Config, a: Recorder, k: nat)
    requires LockInv(a) && SamplerEnabled(a, Unlock(k))
    ensures var b := Step(c, a, Unlock(k));
      && b.logs == a.logs && b.active == a.active
      && BeingDrained(b) == multiset{}
      && Collected(b.returned) == Collected(a.returned) + BeingDrained(a)
  {
    SamplerHolder(c, a, Unlock(k));
    CollectedOneMore(a.returned, Sample(a.hists[a.samplers[k].taken], a.logs[a.samplers[k].taken]));
  }

  lemma NothingMore(records: multiset<Record>)
    ensures records + multiset{} == records
  {
  }

  // ---------- all together ----------

  lemma StepKeepsInv(c: Config, a: Recorder, act: Action)
    requires Inv(c, a) && Enabled(c, a, act) && c.highest <= INT64_MAX
    ensures Inv(c, Step(c, a, act))
  {
    if WriterEnabled(c, a, act) {
      WriterKeepsInv(c, a, act);
    } else {
      SamplerKeepsInv(c, a, act);
    }
  }

  lemma WriterKeepsInv(c: Config, a: Recorder, act: Action)
    requires Inv(c, a) && WriterEnabled(c, a, act)
    ensures Inv(c, Step(c, a, act))
  {
    WriterKeepsLock(c, a, act);
    WriterKeepsPhaser(c, a, act);
    WriterKeepsOwnership(c, a, act);
    WriterKeepsWriters(c, a, act);
    HeldExists(c, a, act.w);
    WriterKeepsContents(c, a, act);
  }

  lemma WriterKeepsLock(c: Config, a: Recorder, act: Action)
    requires LockInv(a) && WriterEnabled(c, a, act)
    ensures LockInv(Step(c, a, act)) && Step(c, a, act).returned == a.returned
  {
    WriterKeepsHolder(c, a, act);
  }

  lemma WriterKeepsPhaser(c: Config, a: Recorder, act: Action)
    requires PhaserInv(a) && WriterEnabled(c, a, act)
    ensures PhaserInv(Step(c, a, act))
  {
    if act.Enter? {
      EnterKeepsPhaser(c, a, act.w);
    } else if act.Exit? {
      ExitKeepsPhaser(c, a, act.w);
    } else {
      SamePhaseKeepsPhaser(c, a, act);
    }
  }

  lemma SamplerKeepsInv(c: Config, a: Recorder, act: Action)
    requires Inv(c, a) && SamplerEnabled(a, act) && c.highest <= INT64_MAX
    ensures Inv(c, Step(c, a, act))
  {
    SamplerHolder(c, a, act);
    SamplerKeepsPhaser(c, a, act);
    SamplerKeepsOwnership(c, a, act);
    SamplerKeepsWriters(c, a, act);
    SamplerKeepsContents(c, a, act);
    if act.Unlock? { DrainedIsQuiescent(c, a, act.k); }
    SamplerKeepsSamples(c, a, act);
  }

  lemma SamplerKeepsSamples(c: Config, a: Recorder, act: Action)
    requires SamplesExact(c, a.returned) && SamplerEnabled(a, act)
    requires act.Unlock? ==>
      a.hists[a.samplers[act.k].taken] == RecordedAll(c, EmptyState(c), a.logs[a.samplers[act.k].taken])
    ensures SamplesExact(c, Step(c, a, act).returned)
  {
  }

  /** When the old phase has been drained no writer holds the histogram taken out, and its
      contents are those of recording its log sequentially. */
  lemma DrainedIsQuiescent(c: Config, a: Recorder, k: nat)
    requires Inv(c, a) && k < |a.samplers| && a.samplers[k].CaughtUp?
    ensures forall w | 0 <= w < |a.writers| :: a.writers[w].Inside? ==> a.writers[w].h != a.samplers[k].taken
    ensures var h := a.samplers[k].taken;
      h in a.hists && h in a.logs && a.hists[h] == RecordedAll(c, EmptyState(c), a.logs[h])
  {
    NoneHoldsDrained(c, a, k);
    QuiescentContents(c, a, a.samplers[k].taken);
  }

  lemma NoneHoldsDrained(c: Config, a: Recorder, k: nat)
    requires OwnershipInv(c, a) && WritersInv(a) && LockInv(a) && k < |a.samplers| && a.samplers[k].CaughtUp?
    ensures a.samplers[k].taken in a.hists
    ensures forall w | 0 <= w < |a.writers| :: a.writers[w].Inside? ==> a.writers[w].h != a.samplers[k].taken
  {
    assert PrivateInv(c, a, k);
    forall w | 0 <= w < |a.writers|
      ensures a.writers[w].Inside? ==> a.writers[w].h != a.samplers[k].taken
    {
      if a.writers[w].Inside? { assert MayHold(a, a.writers[w]); }
    }
  }

  lemma QuiescentContents(c: Config, a: Recorder, h: Id)
    requires ContentsInv(c, a) && h in a.hists
    requires forall w | 0 <= w < |a.writers| :: a.writers[w].Inside? ==> a.writers[w].h != h
    ensures h in a.logs && a.hists[h] == RecordedAll(c, EmptyState(c), a.logs[h])
  {
    QuiescentIsSequential(c, a.hists[h], OpsOn(a.writers, h), a.logs[h]);
  }

  // ---------- runs ----------

  ghost predicate Next(c: Config, a: Recorder, b: Recorder) {
    exists act :: Enabled(c, a, act) && b == Step(c, a, act)
  }

  ghost predicate NextAt(c: Config, run: seq<Recorder>, i: nat)
    requires i + 1 < |run|
  {
    Next(c, run[i], run[i + 1])
  }

  ghost predicate IsRun(c: Config, run: seq<Recorder>) {
    && run != [] && IntervalRecorder.Initial(c, run[0])
    && forall i | 0 <= i < |run| - 1 :: NextAt(c, run, i)
  }

  lemma InitialIsInv(c: Config, a: Recorder)
    requires IntervalRecorder.Initial(c, a) && c.highest <= INT64_MAX
    ensures Inv(c, a)
  {
    NoneInFlight(a.writers, true);
    NoneInFlight(a.writers, false);
    forall h | h in a.hists
      ensures AtomicInv(c, a.hists[h], OpsOn(a.writers, h), a.logs[h])
    {
      InitialInv(c, OpsOn(a.writers, h));
    }
  }

  lemma NextKeepsInv(c: Config, a: Recorder, b: Recorder)
    requires c.highest <= INT64_MAX
    ensures Inv(c, a) && Next(c, a, b) ==> Inv(c, b)
  {
    if Inv(c, a) && Next(c, a, b) {
      var act :| Enabled(c, a, act) && b == Step(c, a, act);
      StepKeepsInv(c, a, act);
    }
  }

  lemma {:induction false} RunKeepsInv(c: Config, run: seq<Recorder>, i: nat)
    requires c.highest <= INT64_MAX && i < |run|
    ensures IsRun(c, run) ==> Inv(c, run[i])
  {
    if IsRun(c, run) {
      if i == 0 {
        InitialIsInv(c, run[0]);
      } else {
        RunKeepsInv(c, run, i - 1);
        assert NextAt(c, run, i - 1);
        NextKeepsInv(c, run[i - 1], run[i]);
      }
    }
  }

  // ---------- the actions of a run ----------

  ghost predicate TakesAt(c: Config, run: seq<Recorder>, acts: seq<Action>, i: nat)
    requires i + 1 < |run| && i < |acts|
  {
    Enabled(c, run[i], acts[i]) && run[i + 1] == Step(c, run[i], acts[i])
  }

  /** The run takes these actions. */
  ghost predicate Takes(c: Config, run: seq<Recorder>, acts: seq<Action>) {
    && IsRun(c, run) && |run| == |acts| + 1
    && forall i | 0 <= i < |acts| :: TakesAt(c, run, acts, i)
  }

  /** Every run takes some. */
  lemma {:induction false} ActionsOfRun(c: Config, run: seq<Recorder>) returns (acts: seq<Action>)
    requires IsRun(c, run)
    ensures Takes(c, run, acts)
  {
    acts := [];
    var n := |run| - 1;
    if n > 0 {
      RunBefore(c, run, n);
      var q := ActionsOfRun(c, run[..n]);
      var act := ActionAt(c, run, n - 1);
      acts := q + [act];
      TakesOneMore(c, run, q, act);
    }
  }

  lemma RunBefore(c: Config, run: seq<Recorder>, n: nat)
    requires IsRun(c, run) && 0 < n < |run|
    ensures IsRun(c, run[..n])
  {
    forall i | 0 <= i < n - 1
      ensures NextAt(c, run[..n], i)
    {
      assert NextAt(c, run, i);
    }
  }

  lemma ActionAt(c: Config, run: seq<Recorder>, i: nat) returns (act: Action)
    requires IsRun(c, run) && i + 1 < |run|
    ensures Enabled(c, run[i], act) && run[i + 1] == Step(c, run[i], act)
  {
    assert NextAt(c, run, i);
    act :| Enabled(c, run[i], act) && run[i + 1] == Step(c, run[i], act);
  }

  lemma TakesOneMore(c: Config, run: seq<Recorder>, acts: seq<Action>, act: Action)
    requires IsRun(c, run) && |acts| + 2 == |run| && Takes(c, run[..|run| - 1], acts)
    requires Enabled(c, run[|acts|], act) && run[|acts| + 1] == Step(c, run[|acts|], act)
    ensures Takes(c, run, acts + [act])
  {
    forall i | 0 <= i < |acts + [act]|
      ensures TakesAt(c, run, acts + [act], i)
    {
      assert i < |acts| ==> TakesAt(c, run[..|run| - 1], acts, i);
    }
  }

  /** Everything recorded: the records that the actions begin. */
  function RecordsOf(acts: seq<Action>): multiset<Record> {
    if acts == [] then multiset{} else RecordsOf(acts[..|acts| - 1]) + RecordOf(acts[|acts| - 1])
  }

  lemma {:induction false} Accumulates(acts: seq<Action>, held: seq<multiset<Record>>, i: nat)
    requires |held| == |acts| + 1 && i <= |acts| && held[0] == multiset{}
    requires forall k | 0 <= k < |acts| :: held[k + 1] == held[k] + RecordOf(acts[k])
    ensures RecordsOf(acts[..i]) == held[i]
  {
    if i > 0 {
      Accumulates(acts, held, i - 1);
      RecordsOneMore(acts, i - 1);
      assert held[i - 1 + 1] == held[i];
    }
  }

  lemma RunHolds(c: Config, run: seq<Recorder>, acts: seq<Action>, i: nat)
    requires c.highest <= INT64_MAX && Takes(c, run, acts) && i < |run|
    ensures RecordsOf(acts[..i]) == Held(run[i])
  {
    var held := seq(|run|, k requires 0 <= k < |run| => Held(run[k]));
    NothingHeld(c, run);
    forall k | 0 <= k < |acts|
      ensures held[k + 1] == held[k] + RecordOf(acts[k])
    {
      StepInRunHolds(c, run, acts, k);
    }
    Accumulates(acts, held, i);
  }

  lemma RecordsOneMore(acts: seq<Action>, i: nat)
    requires i < |acts|
    ensures RecordsOf(acts[..i + 1]) == RecordsOf(acts[..i]) + RecordOf(acts[i])
  {
    assert acts[..i + 1][..i] == acts[..i];
  }

  lemma StepInRunHolds(c: Config, run: seq<Recorder>, acts: seq<Action>, i: nat)
    requires c.highest <= INT64_MAX && i < |acts| == |run| - 1
    ensures Takes(c, run, acts) ==> Held(run[i + 1]) == Held(run[i]) + RecordOf(acts[i])
  {
    if Takes(c, run, acts) {
      RunKeepsInv(c, run, i);
      assert TakesAt(c, run, acts, i);
      NextHolds(c, run[i], acts[i], run[i + 1]);
    }
  }

  lemma NextHolds(c: Config, a: Recorder, act: Action, b: Recorder)
    ensures Inv(c, a) && Enabled(c, a, act) && b == Step(c, a, act) ==> Held(b) == Held(a) + RecordOf(act)
  {
    if Inv(c, a) && Enabled(c, a, act) && b == Step(c, a, act) { StepHolds(c, a, act); }
  }

  lemma NothingHeld(c: Config, run: seq<Recorder>)
    requires run != []
    ensures IsRun(c, run) ==> Held(run[0]) == multiset{}
  {
  }

  /** No call of a record function is under way on histogram h. */
  ghost predicate AtRest(a: Recorder, h: Id) {
    forall w | 0 <= w < |a.writers| :: OpOn(a.writers[w], h).Idle?
  }

  /** Every sample returned was, at its return, the histogram that recording its share sequentially
      produces, and so is the active one whenever it is at rest. */
  lemma SamplesAreSequential(c: Config, run: seq<Recorder>, i: nat)
    requires c.highest <= INT64_MAX && IsRun(c, run) && i < |run|
    ensures run[i].active in run[i].logs && run[i].active in run[i].hists
    ensures SamplesExact(c, run[i].returned)
    ensures AtRest(run[i], run[i].active) ==>
      run[i].hists[run[i].active] == RecordedAll(c, EmptyState(c), run[i].logs[run[i].active])
  {
    RunKeepsInv(c, run, i);
    var a := run[i];
    if AtRest(a, a.active) {
      QuiescentIsSequential(c, a.hists[a.active], OpsOn(a.writers, a.active), a.logs[a.active]);
    }
  }

  /** Conservation over whole runs: in every interleaving every record that has been begun is in
      exactly one of the returned samples, the histogram being drained and the active one. */
  lemma NothingLostAcrossSamples(c: Config, run: seq<Recorder>, acts: seq<Action>, i: nat)
    requires c.highest <= INT64_MAX && Takes(c, run, acts) && i < |run|
    ensures run[i].active in run[i].logs && run[i].active in run[i].hists
    ensures RecordsOf(acts[..i])
         == Collected(run[i].returned) + BeingDrained(run[i]) + multiset(run[i].logs[run[i].active])
    ensures forall j | 0 <= j < |run[i].returned| ::
      run[i].returned[j].contents == RecordedAll(c, EmptyState(c), run[i].returned[j].log)
    ensures AtRest(run[i], run[i].active) ==>
      run[i].hists[run[i].active] == RecordedAll(c, EmptyState(c), run[i].logs[run[i].active])
  {
    RunHolds(c, run, acts, i);
    SamplesAreSequential(c, run, i);
  }

  // ---------- conservation, slot by slot ----------

  /** The records of all samples, one sample after the other. */
  function Merged(samples: seq<Sample>): seq<Record> {
    if samples == [] then [] else Merged(samples[..|samples| - 1]) + samples[|samples| - 1].log
  }

  lemma {:induction false} MergedIsCollected(samples: seq<Sample>)
    ensures multiset(Merged(samples)) == Collected(samples)
  {
    if samples != [] { MergedIsCollected(samples[..|samples| - 1]); }
  }

  /** What all samples together have counted in slot i. */
  function SlotOfSamples(samples: seq<Sample>, i: nat): int
    requires forall j | 0 <= j < |samples| :: i < |samples[j].contents.counts|
  {
    if samples == [] then 0
    else SlotOfSamples(samples[..|samples| - 1], i) + samples[|samples| - 1].contents.counts[i]
  }

  lemma {:induction false} SlotSumConcat(c: Config, rs: seq<Record>, qs: seq<Record>, i: int)
    ensures SlotSum(c, rs + qs, i) == SlotSum(c, rs, i) + SlotSum(c, qs, i)
  {
    if qs == [] {
      assert rs + qs == rs;
    } else {
      assert (rs + qs)[..|rs + qs| - 1] == rs + qs[..|qs| - 1];
      SlotSumConcat(c, rs, qs[..|qs| - 1], i);
    }
  }

  lemma SlotOfLog(c: Config, log: seq<Record>, i: nat)
    requires c.highest <= INT64_MAX && i < c.countsLen
    ensures RecordedAll(c, EmptyState(c), log).counts[i] == SlotSum(c, log, i)
  {
    RunMeaning(c, log);
  }

  lemma {:induction false} SlotsOfSamples(c: Config, samples: seq<Sample>, i: nat)
    requires c.highest <= INT64_MAX && i < c.countsLen && SamplesExact(c, samples)
    ensures SlotOfSamples(samples, i) == SlotSum(c, Merged(samples), i)
  {
    if samples != [] {
      var last := samples[|samples| - 1];
      SlotsOfSamples(c, samples[..|samples| - 1], i);
      SlotOfLog(c, last.log, i);
      SlotSumConcat(c, Merged(samples[..|samples| - 1]), last.log, i);
    }
  }

  /** Whenever no sample is being taken and the active histogram is at rest, the samples returned
      and the active histogram add up, slot by slot, to what recording everything into a single
      histogram, in some order, would have counted. */
  lemma CountsAddUp(c: Config, run: seq<Recorder>, acts: seq<Action>, i: nat) returns (rs: seq<Record>)
    requires c.highest <= INT64_MAX && Takes(c, run, acts) && i < |run|
    requires Taken(Holder(run[i])).None? && AtRest(run[i], run[i].active)
    ensures multiset(rs) == RecordsOf(acts[..i]) && run[i].active in run[i].hists
    ensures forall slot: nat | slot < c.countsLen ::
      && (forall j | 0 <= j < |run[i].returned| :: slot < |run[i].returned[j].contents.counts|)
      && slot < |run[i].hists[run[i].active].counts|
      && SlotOfSamples(run[i].returned, slot) + run[i].hists[run[i].active].counts[slot]
         == RecordedAll(c, EmptyState(c), rs).counts[slot]
  {
    NothingLostAcrossSamples(c, run, acts, i);
    var a := run[i];
    var log := a.logs[a.active];
    rs := Merged(a.returned) + log;
    MergedIsCollected(a.returned);
    forall slot: nat | slot < c.countsLen
      ensures SlotOfSamples(a.returned, slot) + a.hists[a.active].counts[slot]
           == RecordedAll(c, EmptyState(c), rs).counts[slot]
    {
      SlotsOfSamples(c, a.returned, slot);
      SlotOfLog(c, log, slot);
      SlotSumConcat(c, Merged(a.returned), log, slot);
      SlotOfLog(c, rs, slot);
    }
  }

  /** Safety: a writer in flight holds the active histogram or the one that the lock holder has
      taken out and is about to drain.  It never holds one that a caller owns, nor the one about
      to be returned. */
  lemma ReturnedHistogramsAreSafe(c: Config, run: seq<Recorder>, i: nat, w: nat)
    requires c.highest <= INT64_MAX && IsRun(c, run) && i < |run|
    requires w < |run[i].writers| && run[i].writers[w].Inside?
    ensures run[i].writers[w].h == run[i].active
         || (Taken(Holder(run[i])) == Some(run[i].writers[w].h) && !Holder(run[i]).CaughtUp?)
    ensures run[i].writers[w].h !in run[i].owned
  {
    RunKeepsInv(c, run, i);
    assert MayHold(run[i], run[i].writers[w]);
    OwnedNotHeld(c, run[i], run[i].writers[w].h, w);
  }

  ghost predicate Untouched(a: Recorder, b: Recorder, h: Id) {
    && h in a.hists && h in b.hists && b.hists[h] == a.hists[h]
    && h in a.logs && h in b.logs && b.logs[h] == a.logs[h]
  }

  lemma WriterLeavesAlone(c: Config, a: Recorder, act: Action, h: Id)
    requires WriterEnabled(c, a, act) && Untouched(a, a, h)
    requires a.writers[act.w].Inside? ==> a.writers[act.w].h != h
    ensures Untouched(a, Step(c, a, act), h) && Step(c, a, act).owned == a.owned
  {
  }

  lemma SamplerLeavesAlone(c: Config, a: Recorder, act: Action, h: Id)
    requires SamplerEnabled(a, act) && Untouched(a, a, h) && h in a.owned
    requires !(act.Recycle? && act.h == h)
    ensures Untouched(a, Step(c, a, act), h) && h in Step(c, a, act).owned
  {
  }

  lemma OwnedStep(c: Config, a: Recorder, act: Action, h: Id)
    requires Inv(c, a) && Enabled(c, a, act) && h in a.owned
    requires !(act.Recycle? && act.h == h)
    ensures Untouched(a, Step(c, a, act), h) && h in Step(c, a, act).owned
  {
    if WriterEnabled(c, a, act) {
      OwnedNotHeld(c, a, h, act.w);
      WriterLeavesAlone(c, a, act, h);
    } else {
      SamplerLeavesAlone(c, a, act, h);
    }
  }

  /** Recycling ends ownership. */
  lemma RecycledIsNotOwned(c: Config, a: Recorder, act: Action)
    requires Enabled(c, a, act) && act.Recycle?
    ensures act.h !in Step(c, a, act).owned
  {
  }

  lemma OwnedNext(c: Config, a: Recorder, b: Recorder, h: Id)
    ensures Inv(c, a) && Next(c, a, b) && h in a.owned && h in b.owned ==> Untouched(a, b, h)
  {
    if Inv(c, a) && Next(c, a, b) && h in a.owned && h in b.owned {
      var act :| Enabled(c, a, act) && b == Step(c, a, act);
      if act.Recycle? { RecycledIsNotOwned(c, a, act); }
      OwnedStep(c, a, act, h);
    }
  }

  lemma OwnedHere(c: Config, run: seq<Recorder>, k: nat, h: Id)
    requires c.highest <= INT64_MAX && IsRun(c, run) && k < |run| && h in run[k].owned
    ensures Untouched(run[k], run[k], h)
  {
    RunKeepsInv(c, run, k);
    assert OwnershipInv(c, run[k]);
  }

  lemma UntouchedFurther(a: Recorder, b: Recorder, d: Recorder, h: Id)
    requires Untouched(a, b, h) && Untouched(b, d, h)
    ensures Untouched(a, d, h)
  {
  }

  lemma NextInRun(c: Config, run: seq<Recorder>, j: nat)
    requires c.highest <= INT64_MAX && IsRun(c, run) && 0 < j < |run|
    ensures Next(c, run[j - 1], run[j])
  {
    assert NextAt(c, run, j - 1);
  }

  lemma OwnedInRun(c: Config, run: seq<Recorder>, j: nat, h: Id)
    requires c.highest <= INT64_MAX && IsRun(c, run) && 0 < j < |run| && h in run[j - 1].owned && h in run[j].owned
    ensures Untouched(run[j - 1], run[j], h)
  {
    RunKeepsInv(c, run, j - 1);
    NextInRun(c, run, j);
    OwnedNext(c, run[j - 1], run[j], h);
  }

  ghost predicate OwnedFrom(run: seq<Recorder>, i: nat, j: nat, h: Id)
    requires j < |run|
  {
    forall k | i <= k <= j :: h in run[k].owned
  }

  /** As long as a caller owns a histogram, over any stretch of a run, it does not change. */
  lemma {:induction false} OwnedStaysUnchanged(c: Config, run: seq<Recorder>, i: nat, j: nat, h: Id)
    requires c.highest <= INT64_MAX && IsRun(c, run) && i <= j < |run| && OwnedFrom(run, i, j, h)
    ensures Untouched(run[i], run[j], h)
  {
    if i == j {
      OwnedHere(c, run, i, h);
    } else {
      OwnedStaysUnchanged(c, run, i, j - 1, h);
      OwnedInRun(c, run, j, h);
      UntouchedFurther(run[i], run[j - 1], run[j], h);
    }
  }

  // ---------- the flip ----------

  /** The writers of the phase that a flip drains, by the epochs alone. */
  function LeftToDrain(a: Recorder): int
    requires Holder(a).Draining?
  {
    Holder(a).startAtFlip - End(a, !Holder(a).nextEven)
  }

  /** The step is the exit of a writer that the flip waits for. */
  predicate IsAwaitedExit(a: Recorder, act: Action) {
    && act.Exit? && act.w < |a.writers| && a.writers[act.w].Inside?
    && Holder(a).Draining? && IsEven(a.writers[act.w].epoch) != Holder(a).nextEven
  }

  lemma WriterDrains(c: Config, a: Recorder, act: Action)
    requires PhaserInv(a) && WriterEnabled(c, a, act) && Holder(a).Draining?
    ensures var b := Step(c, a, act);
      && Holder(b) == Holder(a)
      && LeftToDrain(b) == LeftToDrain(a) - (if IsAwaitedExit(a, act) then 1 else 0)
  {
    WriterKeepsHolder(c, a, act);
    if act.Exit? { ExitStep(c, a, act.w); }
  }

  /** An exit raises the end epoch of the phase that was entered, and no other. */
  lemma SamplerDrains(c: Config, a: Recorder, act: Action)
    requires LockInv(a) && SamplerEnabled(a, act) && Holder(a).Draining?
    ensures var b := Step(c, a, act);
      if act.CheckEnd?
      then Holder(b) == if LeftToDrain(a) == 0 then CaughtUp(Holder(a).taken) else Holder(a)
      else Holder(b) == Holder(a) && LeftToDrain(b) == LeftToDrain(a)
  {
    SamplerHolder(c, a, act);
  }

  /** During the wait the difference of the epochs is the number of writers that entered before
      the flip and have not left; no step raises it, each such writer leaving lowers it by one,
      and the sampler goes on exactly when it is zero. */
  lemma DrainCountsDown(c: Config, a: Recorder, act: Action)
    requires Inv(c, a) && Enabled(c, a, act) && Holder(a).Draining?
    ensures LeftToDrain(a) == InFlight(a.writers, !Holder(a).nextEven)
    ensures var b := Step(c, a, act);
      if act.CheckEnd?
      then Holder(b) == if LeftToDrain(a) == 0 then CaughtUp(Holder(a).taken) else Holder(a)
      else Holder(b) == Holder(a) && LeftToDrain(b) == LeftToDrain(a) - (if IsAwaitedExit(a, act) then 1 else 0)
  {
    if WriterEnabled(c, a, act) {
      WriterDrains(c, a, act);
    } else {
      SamplerDrains(c, a, act);
    }
  }

  /** The phase that a flip read at its start is still the current one when it exchanges the start
      epoch, so the exchange does change the phase. */
  lemma FlipChangesPhase(c: Config, a: Recorder, k: nat)
    requires Inv(c, a) && Enabled(c, a, ExchangeStart(k))
    ensures IsEven(Step(c, a, ExchangeStart(k)).start) != IsEven(a.start)
    ensures InFlight(a.writers, !IsEven(a.start)) == 0
  {
    SamplerHolder(c, a, ExchangeStart(k));
  }

  /** Outside a flip the epochs count the writers in flight, all of the current phase. */
  lemma EpochsCountWriters(c: Config, a: Recorder)
    requires Inv(c, a)
    ensures a.start - End(a, IsEven(a.start)) == InFlight(a.writers, IsEven(a.start))
    ensures !Holder(a).Draining? ==> forall w | 0 <= w < |a.writers| :: !InPhase(a.writers[w], !IsEven(a.start))
  {
    NoneInFlight(a.writers, !IsEven(a.start));
  }
}
