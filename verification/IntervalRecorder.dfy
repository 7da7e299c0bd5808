/** The writer-reader phaser and the interval recorder as one step system: any number of writers
    and samplers, one step per atomic operation, with sequentially consistent memory.

    A writer enters by incrementing the start epoch, loads the active histogram, records into it
    with the atomic operations of module AtomicRecording, and leaves by incrementing the end
    epoch of the phase it entered in.  A sampler takes the lock, swaps the active histogram,
    flips the phase, waits until the writers of the old phase have left, and returns the old
    histogram. */
module IntervalRecorder {
  import opened Bits
  import opened BucketMath
  import opened Recording
  import opened AtomicRecording
  import opened Results

  /** A pointer to a histogram. */
  type Id = nat

  /** hdr_interval_recorder_update */
  datatype Writer =
    | Outside
    | Entered(epoch: int)
    | Inside(epoch: int, h: Id, op: Thread)

  /** hdr_interval_recorder_sample_and_recycle with hdr_phaser_flip_phase.  Without a histogram to
      recycle it loads active, outside the lock, and is about to read a parameter from what it has
      seen; it does so three times. */
  datatype Sampler =
    | Ready
    | Sizing(seen: Id)
    | WantsLock(spare: Id)
    | Locked(spare: Id)
    | Loaded(spare: Id, taken: Id)
    | Swapped(taken: Id)
    | PhaseRead(taken: Id, nextEven: bool)
    | Cleared(taken: Id, nextEven: bool)
    | Draining(taken: Id, nextEven: bool, startAtFlip: int)
    | CaughtUp(taken: Id)

  /** A histogram as it was when it was returned, and the records made into it. */
  datatype Sample = Sample(contents: State, log: seq<Record>)

  datatype Recorder = Recorder(
    // struct hdr_interval_recorder with struct hdr_writer_reader_phaser
    start: int,
    evenEnd: int,
    oddEnd: int,
    lock: Option<nat>,
    active: Id,
    // the threads
    writers: seq<Writer>,
    samplers: seq<Sampler>,
    // every histogram ever allocated, those that belong to callers of sample_and_recycle, and the
    // records made into each since it was last reset
    hists: map<Id, State>,
    owned: set<Id>,
    logs: map<Id, seq<Record>>,
    // the samples returned so far
    returned: seq<Sample>)

  datatype Action =
    | Enter(w: nat)
    | LoadActive(w: nat)
    | BeginRecord(w: nat, r: Record)
    | Operate(w: nat, s: State, t: Thread)
    | Exit(w: nat)
    | Recycle(k: nat, h: Id)
    | LoadForSize(k: nat)
    | Allocate(k: nat, h: Id)
    | Lock(k: nat)
    | LoadOld(k: nat)
    | StoreActive(k: nat)
    | ReadPhase(k: nat)
    | ClearEnd(k: nat)
    | ExchangeStart(k: nat)
    | CheckEnd(k: nat)
    | Unlock(k: nat)

  // ---------- the phases ----------

  /** Epochs of the odd phase are negative. */
  predicate IsEven(epoch: int) { epoch >= 0 }

  function InitialEpoch(even: bool): int { if even then 0 else INT64_MIN }

  function End(a: Recorder, even: bool): int { if even then a.evenEnd else a.oddEnd }

  function WithEnd(a: Recorder, even: bool, epoch: int): Recorder {
    if even then a.(evenEnd := epoch) else a.(oddEnd := epoch)
  }

  // ---------- the steps ----------

  ghost predicate WriterEnabled(c: Config, a: Recorder, act: Action) {
    match act
    case Enter(w) =>
      // fewer than 2^63 enters in one phase
      w < |a.writers| && a.writers[w].Outside? && a.start != INT64_MAX && a.start != -1
    case LoadActive(w) =>
      w < |a.writers| && a.writers[w].Entered?
    case BeginRecord(w, r) =>
      w < |a.writers| && a.writers[w].Inside? && a.writers[w].op.Idle? && Accepts(c, r.value)
      && a.writers[w].h in a.logs
    case Operate(w, s, t) =>
      w < |a.writers| && a.writers[w].Inside?
      && a.writers[w].h in a.hists && |a.hists[a.writers[w].h].counts| == c.countsLen
      && (a.writers[w].op.Idle? || Accepts(c, a.writers[w].op.r.value))
      && Micro(c, a.hists[a.writers[w].h], a.writers[w].op, s, t)
    case Exit(w) =>
      w < |a.writers| && a.writers[w].Inside? && a.writers[w].op.Idle?
    case _ => false
  }

  ghost predicate SamplerEnabled(a: Recorder, act: Action) {
    match act
    case Recycle(k, h) => k < |a.samplers| && a.samplers[k].Ready? && h in a.owned
    case LoadForSize(k) => k < |a.samplers| && (a.samplers[k].Ready? || a.samplers[k].Sizing?)
    case Allocate(k, h) => k < |a.samplers| && a.samplers[k].Sizing? && h !in a.hists
    case Lock(k) => k < |a.samplers| && a.samplers[k].WantsLock? && a.lock.None?
    case LoadOld(k) => k < |a.samplers| && a.samplers[k].Locked?
    case StoreActive(k) => k < |a.samplers| && a.samplers[k].Loaded?
    case ReadPhase(k) => k < |a.samplers| && a.samplers[k].Swapped?
    case ClearEnd(k) => k < |a.samplers| && a.samplers[k].PhaseRead?
    case ExchangeStart(k) => k < |a.samplers| && a.samplers[k].Cleared?
    case CheckEnd(k) => k < |a.samplers| && a.samplers[k].Draining?
    case Unlock(k) =>
      k < |a.samplers| && a.samplers[k].CaughtUp? && a.samplers[k].taken in a.hists && a.samplers[k].taken in a.logs
    case _ => false
  }

  function WriterStep(c: Config, a: Recorder, act: Action): Recorder
    requires WriterEnabled(c, a, act)
  {
    match act
    case Enter(w) =>
      var epoch := Wrap64(a.start + 1);
      a.(start := epoch, writers := a.writers[w := Entered(epoch)])
    case LoadActive(w) =>
      a.(writers := a.writers[w := Inside(a.writers[w].epoch, a.active, Idle)])
    case BeginRecord(w, r) =>
      var h := a.writers[w].h;
      a.(writers := a.writers[w := a.writers[w].(op := AddSlot(r))],
         logs := a.logs[h := a.logs[h] + [r]])
    case Operate(w, s, t) =>
      a.(writers := a.writers[w := a.writers[w].(op := t)],
         hists := a.hists[a.writers[w].h := s])
    case Exit(w) =>
      var even := IsEven(a.writers[w].epoch);
      WithEnd(a.(writers := a.writers[w := Outside]), even, Wrap64(End(a, even) + 1))
  }

  function WithSpare(c: Config, a: Recorder, k: nat, h: Id): Recorder
    requires k < |a.samplers|
  {
    a.(samplers := a.samplers[k := WantsLock(h)],
       hists := a.hists[h := EmptyState(c)], logs := a.logs[h := []], owned := a.owned - {h})
  }

  function SamplerStep(c: Config, a: Recorder, act: Action): Recorder
    requires SamplerEnabled(a, act)
  {
    var k := act.k;
    var me := a.samplers[k];
    match act
    case Recycle(_, h) => WithSpare(c, a, k, h)
    case LoadForSize(_) => a.(samplers := a.samplers[k := Sizing(a.active)])
    case Allocate(_, h) => WithSpare(c, a, k, h)
    case Lock(_) => a.(samplers := a.samplers[k := Locked(me.spare)], lock := Some(k))
    case LoadOld(_) => a.(samplers := a.samplers[k := Loaded(me.spare, a.active)])
    case StoreActive(_) => a.(samplers := a.samplers[k := Swapped(me.taken)], active := me.spare)
    case ReadPhase(_) => a.(samplers := a.samplers[k := PhaseRead(me.taken, !IsEven(a.start))])
    case ClearEnd(_) =>
      WithEnd(a.(samplers := a.samplers[k := Cleared(me.taken, me.nextEven)]), me.nextEven, InitialEpoch(me.nextEven))
    case ExchangeStart(_) =>
      a.(samplers := a.samplers[k := Draining(me.taken, me.nextEven, a.start)], start := InitialEpoch(me.nextEven))
    case CheckEnd(_) =>
      if End(a, !me.nextEven) == me.startAtFlip then a.(samplers := a.samplers[k := CaughtUp(me.taken)]) else a
    case Unlock(_) =>
      a.(samplers := a.samplers[k := Ready], lock := None, owned := a.owned + {me.taken},
         returned := a.returned + [Sample(a.hists[me.taken], a.logs[me.taken])])
  }

  ghost predicate Enabled(c: Config, a: Recorder, act: Action) {
    WriterEnabled(c, a, act) || SamplerEnabled(a, act)
  }

  function Step(c: Config, a: Recorder, act: Action): Recorder
    requires Enabled(c, a, act)
  {
    if act.Enter? || act.LoadActive? || act.BeginRecord? || act.Operate? || act.Exit?
    then WriterStep(c, a, act)
    else SamplerStep(c, a, act)
  }

  /** hdr_interval_recorder_init_all, before any thread has started; callers may already own
      histograms to recycle. */
  ghost predicate Initial(c: Config, a: Recorder) {
    && a.start == 0 && a.evenEnd == 0 && a.oddEnd == INT64_MIN && a.lock.None?
    && (forall w | 0 <= w < |a.writers| :: a.writers[w].Outside?)
    && (forall k | 0 <= k < |a.samplers| :: a.samplers[k].Ready?)
    && a.active in a.hists && a.active !in a.owned && a.owned <= a.hists.Keys == a.logs.Keys
    && (forall h | h in a.hists :: a.hists[h] == EmptyState(c) && a.logs[h] == [])
    && a.returned == []
  }

  // ---------- writers in flight ----------

  predicate InPhase(w: Writer, even: bool) {
    !w.Outside? && IsEven(w.epoch) == even
  }

  /** The number of writers in flight that entered in the given phase. */
  function InFlight(writers: seq<Writer>, even: bool): nat {
    if writers == [] then 0
    else InFlight(writers[..|writers| - 1], even) + if InPhase(writers[|writers| - 1], even) then 1 else 0
  }

  lemma {:induction false} InFlightUpdate(writers: seq<Writer>, w: nat, next: Writer, even: bool)
    requires w < |writers|
    ensures InFlight(writers[w := next], even)
         == InFlight(writers, even) - (if InPhase(writers[w], even) then 1 else 0)
            + (if InPhase(next, even) then 1 else 0)
  {
    var n := |writers| - 1;
    if w < n {
      assert writers[w := next][..n] == writers[..n][w := next];
      InFlightUpdate(writers[..n], w, next, even);
    } else {
      assert writers[w := next][..n] == writers[..n];
    }
  }

  lemma {:induction false} NoneInFlight(writers: seq<Writer>, even: bool)
    ensures InFlight(writers, even) == 0 <==> forall w | 0 <= w < |writers| :: !InPhase(writers[w], even)
  {
    if writers != [] { NoneInFlight(writers[..|writers| - 1], even); }
  }

  // ---------- the invariant ----------

  /** The sampler that holds the lock, or an idle one. */
  function Holder(a: Recorder): Sampler {
    if a.lock.Some? && a.lock.value < |a.samplers| then a.samplers[a.lock.value] else Ready
  }

  predicate InCritical(s: Sampler) { !s.Ready? && !s.Sizing? && !s.WantsLock? }

  ghost predicate LockInv(a: Recorder) {
    && (a.lock.Some? ==> a.lock.value < |a.samplers| && InCritical(a.samplers[a.lock.value]))
    && (forall k | 0 <= k < |a.samplers| :: InCritical(a.samplers[k]) ==> a.lock == Some(k))
  }

  /** The writers of the current phase are those between its start and its end epoch.  Writers of
      the other phase exist only while a flip drains them, and then are counted by the start
      value taken at the flip. */
  ghost predicate PhaserInv(a: Recorder) {
    var even := IsEven(a.start);
    var s := Holder(a);
    && INT64_MIN <= a.start <= INT64_MAX && INT64_MIN <= a.evenEnd && INT64_MIN <= a.oddEnd
    && a.start == End(a, even) + InFlight(a.writers, even)
    && (if s.Draining?
        then s.nextEven == even && IsEven(s.startAtFlip) != even
             && INT64_MIN <= s.startAtFlip <= INT64_MAX
             && s.startAtFlip == End(a, !even) + InFlight(a.writers, !even)
        else InFlight(a.writers, !even) == 0)
    && (s.PhaseRead? || s.Cleared? ==> s.nextEven == !even)
    && (s.Cleared? ==> End(a, !even) == InitialEpoch(!even))
  }

  /** The histogram that belongs to a sampler alone. */
  function Private(s: Sampler): Option<Id> {
    match s
    case Ready => None
    case Sizing(_) => None
    case WantsLock(h) => Some(h)
    case Locked(h) => Some(h)
    case Loaded(h, _) => Some(h)
    case Swapped(h) => Some(h)
    case PhaseRead(h, _) => Some(h)
    case Cleared(h, _) => Some(h)
    case Draining(h, _, _) => Some(h)
    case CaughtUp(h) => Some(h)
  }

  predicate HasSpare(s: Sampler) { s.WantsLock? || s.Locked? || s.Loaded? }

  ghost predicate OwnershipInv(c: Config, a: Recorder) {
    && a.active in a.hists && a.active !in a.owned
    && a.owned <= a.hists.Keys == a.logs.Keys
    && (forall k | 0 <= k < |a.samplers| :: PrivateInv(c, a, k))
    && (forall j, k | 0 <= j < k < |a.samplers| :: Apart(a.samplers[j], a.samplers[k]))
  }

  /** What sampler k has to itself is neither active nor owned by a caller; a spare is empty. */
  ghost predicate PrivateInv(c: Config, a: Recorder, k: nat)
    requires k < |a.samplers|
  {
    var s := a.samplers[k];
    && (Private(s).Some? ==> Private(s).value in a.hists && Private(s).value in a.logs
                             && Private(s).value !in a.owned && Private(s).value != a.active)
    && (HasSpare(s) ==> a.logs[s.spare] == [])
    && (s.Loaded? ==> s.taken == a.active)
  }

  predicate Apart(s: Sampler, t: Sampler) {
    Private(s).Some? ==> Private(s) != Private(t)
  }

  /** Every writer holds the active histogram or the one the lock holder is about to drain, and
      once the phase is flipped only writers of the old phase hold the latter. */
  ghost predicate WritersInv(a: Recorder) {
    forall w | 0 <= w < |a.writers| :: a.writers[w].Inside? ==> MayHold(a, a.writers[w])
  }

  predicate MayHold(a: Recorder, w: Writer)
    requires w.Inside?
  {
    var s := Holder(a);
    || w.h == a.active
    || ((s.Swapped? || s.PhaseRead? || s.Cleared?) && w.h == s.taken)
    || (s.Draining? && w.h == s.taken && IsEven(w.epoch) != s.nextEven)
  }

  function OpOn(w: Writer, h: Id): Thread {
    if w.Inside? && w.h == h then w.op else Idle
  }

  /** The calls in flight on histogram h. */
  function OpsOn(writers: seq<Writer>, h: Id): seq<Thread> {
    seq(|writers|, i requires 0 <= i < |writers| => OpOn(writers[i], h))
  }

  /** Each histogram is in the midst of atomically recording its own log. */
  ghost predicate ContentsInv(c: Config, a: Recorder) {
    && a.hists.Keys == a.logs.Keys
    && forall h | h in a.hists :: AtomicInv(c, a.hists[h], OpsOn(a.writers, h), a.logs[h])
  }

  /** The records of all samples returned. */
  function Collected(samples: seq<Sample>): multiset<Record> {
    if samples == [] then multiset{}
    else Collected(samples[..|samples| - 1]) + multiset(samples[|samples| - 1].log)
  }

  /** The histogram a sampler has taken out but not yet returned. */
  function Taken(s: Sampler): Option<Id> {
    match s
    case Swapped(h) => Some(h)
    case PhaseRead(h, _) => Some(h)
    case Cleared(h, _) => Some(h)
    case Draining(h, _, _) => Some(h)
    case CaughtUp(h) => Some(h)
    case _ => None
  }

  function LogOf(logs: map<Id, seq<Record>>, h: Option<Id>): multiset<Record> {
    if h.Some? && h.value in logs then multiset(logs[h.value]) else multiset{}
  }

  /** The records in the histogram that the lock holder is draining. */
  function BeingDrained(a: Recorder): multiset<Record> {
    LogOf(a.logs, Taken(Holder(a)))
  }

  /** The records in the samples returned, in the histogram being drained and in the active one. */
  function Held(a: Recorder): multiset<Record> {
    Collected(a.returned) + BeingDrained(a) + LogOf(a.logs, Some(a.active))
  }

  /** Every sample, when it was returned, was the sequential histogram of its log. */
  ghost predicate SamplesExact(c: Config, samples: seq<Sample>) {
    forall i | 0 <= i < |samples| :: samples[i].contents == RecordedAll(c, EmptyState(c), samples[i].log)
  }

  ghost predicate Inv(c: Config, a: Recorder) {
    && LockInv(a)
    && PhaserInv(a)
    && OwnershipInv(c, a)
    && WritersInv(a)
    && ContentsInv(c, a)
    && SamplesExact(c, a.returned)
  }
}
