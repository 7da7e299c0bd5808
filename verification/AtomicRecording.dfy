/** hdr_record_values_atomic under arbitrary interleavings: any number of threads, one step per
    atomic operation, with sequentially consistent memory. */
module AtomicRecording {
  import opened Bits
  import opened BucketMath
  import opened Recording

  /** Where a thread stands inside hdr_record_values_atomic.  The two additions are either one
      atomic instruction or the compare-exchange loops that stand in for it, which remember the
      comparand of their next attempt. */
  datatype Thread =
    | Idle
    | AddSlot(r: Record)
    | TryAddSlot(r: Record, comparand: int)
    | AddTotal(r: Record)
    | TryAddTotal(r: Record, comparand: int)
    | LoadMin(r: Record)
    | TryMin(r: Record, current: int)
    | LoadMax(r: Record)
    | TryMax(r: Record, current: int)

  /** One atomic operation of a thread inside a call, on the shared histogram s. */
  ghost predicate Micro(c: Config, s: State, t: Thread, s': State, t': Thread)
    requires |s.counts| == c.countsLen && (t.Idle? || Accepts(c, t.r.value))
  {
    match t
    case Idle => false
    case AddSlot(r) =>
      var i := CountsIndexFor(c, r.value);
      || (s' == s.(counts := s.counts[i := s.counts[i] + r.count]) && t' == AddTotal(r))
      || (s' == s && t' == TryAddSlot(r, s.counts[i]))
    case TryAddSlot(r, comparand) =>
      var i := CountsIndexFor(c, r.value);
      if s.counts[i] == comparand
      then s' == s.(counts := s.counts[i := comparand + r.count]) && t' == AddTotal(r)
      else s' == s && t' == TryAddSlot(r, s.counts[i])
    case AddTotal(r) =>
      || (s' == s.(total := s.total + r.count) && t' == LoadMin(r))
      || (s' == s && t' == TryAddTotal(r, s.total))
    case TryAddTotal(r, comparand) =>
      if s.total == comparand
      then s' == s.(total := comparand + r.count) && t' == LoadMin(r)
      else s' == s && t' == TryAddTotal(r, s.total)
    case LoadMin(r) =>
      s' == s && t' == if r.value == 0 || s.min <= r.value then LoadMax(r) else TryMin(r, s.min)
    case TryMin(r, current) =>
      if s.min == current
      then s' == s.(min := r.value) && t' == LoadMax(r)
      else s' == s && t' == LoadMin(r)
    case LoadMax(r) =>
      s' == s && t' == if r.value <= s.max then Idle else TryMax(r, s.max)
    case TryMax(r, current) =>
      if s.max == current
      then s' == s.(max := r.value) && t' == Idle
      else s' == s && t' == LoadMax(r)
  }

  // ---------- what is still to come from calls in flight ----------

  predicate BeforeSlot(t: Thread) { t.AddSlot? || t.TryAddSlot? }
  predicate BeforeTotal(t: Thread) { BeforeSlot(t) || t.AddTotal? || t.TryAddTotal? }
  predicate BeforeMin(t: Thread) { BeforeTotal(t) || t.LoadMin? || t.TryMin? }

  function SlotDue(c: Config, t: Thread, i: int): int {
    if BeforeSlot(t) && t.r.value >= 0 && CountsIndexFor(c, t.r.value) == i then t.r.count else 0
  }

  function TotalDue(t: Thread): int {
    if BeforeTotal(t) then t.r.count else 0
  }

  function SlotsDue(c: Config, threads: seq<Thread>, i: int): int {
    if threads == [] then 0 else SlotsDue(c, threads[..|threads| - 1], i) + SlotDue(c, threads[|threads| - 1], i)
  }

  function TotalsDue(threads: seq<Thread>): int {
    if threads == [] then 0 else TotalsDue(threads[..|threads| - 1]) + TotalDue(threads[|threads| - 1])
  }

  lemma {:induction false} SlotsDueUpdate(c: Config, threads: seq<Thread>, k: nat, t: Thread, i: int)
    requires k < |threads|
    ensures SlotsDue(c, threads[k := t], i) == SlotsDue(c, threads, i) - SlotDue(c, threads[k], i) + SlotDue(c, t, i)
  {
    var n := |threads| - 1;
    if k < n {
      assert threads[k := t][..n] == threads[..n][k := t];
      SlotsDueUpdate(c, threads[..n], k, t, i);
    } else {
      assert threads[k := t][..n] == threads[..n];
    }
  }

  lemma {:induction false} TotalsDueUpdate(threads: seq<Thread>, k: nat, t: Thread)
    requires k < |threads|
    ensures TotalsDue(threads[k := t]) == TotalsDue(threads) - TotalDue(threads[k]) + TotalDue(t)
  {
    var n := |threads| - 1;
    if k < n {
      assert threads[k := t][..n] == threads[..n][k := t];
      TotalsDueUpdate(threads[..n], k, t);
    } else {
      assert threads[k := t][..n] == threads[..n];
    }
  }

  lemma {:induction false} NothingDue(c: Config, threads: seq<Thread>, i: int)
    requires forall k | 0 <= k < |threads| :: threads[k].Idle?
    ensures SlotsDue(c, threads, i) == 0 && TotalsDue(threads) == 0
  {
    if threads != [] { NothingDue(c, threads[..|threads| - 1], i); }
  }

  // ---------- the invariant ----------

  /** started lists the records of all accepted calls begun so far. */
  ghost predicate AtomicInv(c: Config, s: State, threads: seq<Thread>, started: seq<Record>) {
    && |s.counts| == c.countsLen && c.highest <= INT64_MAX
    && (forall r | r in started :: Accepts(c, r.value))
    && AllPlaced(threads, started)
    && SlotsInv(c, s, threads, started)
    && s.total + TotalsDue(threads) == TotalSum(c, started)
    && MaxInv(s, threads, started)
    && MinInv(s, threads, started)
  }

  /** A thread works on a record of its own, and only tries exchanges that improve an extreme. */
  ghost predicate WellPlaced(t: Thread, started: seq<Record>) {
    && (!t.Idle? ==> t.r in started)
    && (t.TryMin? ==> t.r.value != 0 && t.r.value < t.current)
    && (t.TryMax? ==> t.current < t.r.value)
  }

  ghost predicate AllPlaced(threads: seq<Thread>, started: seq<Record>) {
    forall k | 0 <= k < |threads| :: WellPlaced(threads[k], started)
  }

  ghost predicate SlotsInv(c: Config, s: State, threads: seq<Thread>, started: seq<Record>)
    requires |s.counts| == c.countsLen
  {
    forall i | 0 <= i < c.countsLen :: s.counts[i] + SlotsDue(c, threads, i) == SlotSum(c, started, i)
  }

  ghost predicate MaxDue(threads: seq<Thread>, r: Record) {
    exists k | 0 <= k < |threads| :: !threads[k].Idle? && threads[k].r == r
  }

  ghost predicate MinDue(threads: seq<Thread>, r: Record) {
    exists k | 0 <= k < |threads| :: BeforeMin(threads[k]) && threads[k].r == r
  }

  ghost predicate MaxInv(s: State, threads: seq<Thread>, started: seq<Record>) {
    && s.max >= 0
    && (forall r | r in started :: r.value <= s.max || MaxDue(threads, r))
    && (s.max > 0 ==> exists r :: r in started && r.value == s.max)
  }

  ghost predicate MinInv(s: State, threads: seq<Thread>, started: seq<Record>) {
    && 0 < s.min <= INT64_MAX
    && (forall r | r in started :: r.value == 0 || s.min <= r.value || MinDue(threads, r))
    && (s.min < INT64_MAX ==> exists r :: r in started && r.value == s.min)
  }

  lemma InitialInv(c: Config, threads: seq<Thread>)
    requires c.highest <= INT64_MAX && forall k | 0 <= k < |threads| :: threads[k].Idle?
    ensures AtomicInv(c, EmptyState(c), threads, [])
  {
    NothingDue(c, threads, 0);
    forall i | 0 <= i < c.countsLen
      ensures SlotsDue(c, threads, i) == 0
    {
      NothingDue(c, threads, i);
    }
  }

  /** A call with an accepted value begins. */
  lemma BeginKeepsInv(c: Config, s: State, threads: seq<Thread>, started: seq<Record>, k: nat, r: Record)
    requires AtomicInv(c, s, threads, started) && k < |threads| && threads[k].Idle? && Accepts(c, r.value)
    ensures AtomicInv(c, s, threads[k := AddSlot(r)], started + [r])
  {
    var threads', started' := threads[k := AddSlot(r)], started + [r];
    assert started'[..|started|] == started;
    TotalsDueUpdate(threads, k, AddSlot(r));
    forall i | 0 <= i < c.countsLen
      ensures s.counts[i] + SlotsDue(c, threads', i) == SlotSum(c, started', i)
    {
      SlotsDueUpdate(c, threads, k, AddSlot(r), i);
    }
    DueMonotone(threads, k, AddSlot(r), started, r);
  }

  lemma DueMonotone(threads: seq<Thread>, k: nat, t: Thread, started: seq<Record>, r: Record)
    requires k < |threads| && threads[k].Idle? && t == AddSlot(r)
    ensures MaxDue(threads[k := t], r) && MinDue(threads[k := t], r)
    ensures forall q :: MaxDue(threads, q) ==> MaxDue(threads[k := t], q)
    ensures forall q :: MinDue(threads, q) ==> MinDue(threads[k := t], q)
  {
    var threads' := threads[k := t];
    assert threads'[k] == t;
    forall q | MaxDue(threads, q)
      ensures MaxDue(threads', q)
    {
      var j :| 0 <= j < |threads| && !threads[j].Idle? && threads[j].r == q;
      assert threads'[j] == threads[j];
    }
    forall q | MinDue(threads, q)
      ensures MinDue(threads', q)
    {
      var j :| 0 <= j < |threads| && BeforeMin(threads[j]) && threads[j].r == q;
      assert threads'[j] == threads[j];
    }
  }

  /** Every atomic operation keeps the invariant. */
  lemma MicroKeepsInv(c: Config, s: State, threads: seq<Thread>, started: seq<Record>, k: nat, s': State, t': Thread)
    requires AtomicInv(c, s, threads, started) && k < |threads|
    requires threads[k].Idle? || Accepts(c, threads[k].r.value)
    requires Micro(c, s, threads[k], s', t')
    ensures AtomicInv(c, s', threads[k := t'], started)
  {
    SumsAfterMicro(c, s, threads, started, k, s', t');
    MaxAfterMicro(c, s, threads, started, k, s', t');
    MinAfterMicro(c, s, threads, started, k, s', t');
  }

  lemma SumsAfterMicro(c: Config, s: State, threads: seq<Thread>, started: seq<Record>, k: nat, s': State, t': Thread)
    requires AtomicInv(c, s, threads, started) && k < |threads|
    requires threads[k].Idle? || Accepts(c, threads[k].r.value)
    requires Micro(c, s, threads[k], s', t')
    ensures |s'.counts| == c.countsLen && SlotsInv(c, s', threads[k := t'], started)
    ensures s'.total + TotalsDue(threads[k := t']) == TotalSum(c, started)
    ensures AllPlaced(threads[k := t'], started)
  {
    TotalsDueUpdate(threads, k, t');
    forall i | 0 <= i < c.countsLen
      ensures s'.counts[i] + SlotsDue(c, threads[k := t'], i) == SlotSum(c, started, i)
    {
      SlotsDueUpdate(c, threads, k, t', i);
    }
  }

  lemma MaxAfterMicro(c: Config, s: State, threads: seq<Thread>, started: seq<Record>, k: nat, s': State, t': Thread)
    requires AtomicInv(c, s, threads, started) && k < |threads|
    requires threads[k].Idle? || Accepts(c, threads[k].r.value)
    requires Micro(c, s, threads[k], s', t')
    ensures MaxInv(s', threads[k := t'], started)
  {
    var threads' := threads[k := t'];
    assert s.max <= s'.max && (t'.Idle? ==> threads[k].r.value <= s'.max) && (!t'.Idle? ==> t'.r == threads[k].r);
    forall r | r in started && r.value > s'.max
      ensures MaxDue(threads', r)
    {
      var j :| 0 <= j < |threads| && !threads[j].Idle? && threads[j].r == r;
      assert !threads'[j].Idle? && threads'[j].r == r;
    }
  }

  lemma MinAfterMicro(c: Config, s: State, threads: seq<Thread>, started: seq<Record>, k: nat, s': State, t': Thread)
    requires AtomicInv(c, s, threads, started) && k < |threads|
    requires threads[k].Idle? || Accepts(c, threads[k].r.value)
    requires Micro(c, s, threads[k], s', t')
    ensures MinInv(s', threads[k := t'], started)
  {
    var threads', t := threads[k := t'], threads[k];
    assert s'.min <= s.min;
    assert BeforeMin(t) ==> if BeforeMin(t') then t'.r == t.r else t.r.value == 0 || s'.min <= t.r.value;
    forall r | r in started && r.value != 0 && r.value < s'.min
      ensures MinDue(threads', r)
    {
      var j :| 0 <= j < |threads| && BeforeMin(threads[j]) && threads[j].r == r;
      assert BeforeMin(threads'[j]) && threads'[j].r == r;
    }
  }

  /** With no call in flight the shared histogram is exactly what recording the same values one
      after the other leaves behind. */
  lemma QuiescentIsSequential(c: Config, s: State, threads: seq<Thread>, started: seq<Record>)
    requires AtomicInv(c, s, threads, started) && forall k | 0 <= k < |threads| :: threads[k].Idle?
    ensures s == RecordedAll(c, EmptyState(c), started)
  {
    forall i | 0 <= i < c.countsLen
      ensures s.counts[i] == SlotSum(c, started, i)
    {
      NothingDue(c, threads, i);
    }
    NothingDue(c, threads, 0);
    SummaryDetermines(c, started, s);
  }

  // ---------- a call on its own ----------

  ghost predicate CanAct(c: Config, s: State, t: Thread) {
    |s.counts| == c.countsLen && (t.Idle? || Accepts(c, t.r.value))
  }

  /** The accesses a thread still makes when no other thread interferes. */
  function StepsLeft(c: Config, s: State, t: Thread): nat
    requires |s.counts| == c.countsLen && (t.Idle? || Accepts(c, t.r.value))
  {
    match t
    case Idle => 0
    case TryMax(_, current) => if s.max == current then 1 else 3
    case LoadMax(_) => 2
    case TryMin(_, current) => if s.min == current then 3 else 5
    case LoadMin(_) => 4
    case TryAddTotal(_, comparand) => if s.total == comparand then 5 else 6
    case AddTotal(_) => 6
    case TryAddSlot(r, comparand) => if s.counts[CountsIndexFor(c, r.value)] == comparand then 7 else 8
    case AddSlot(_) => 8
  }

  lemma MicroDescends(c: Config, s: State, t: Thread, s': State, t': Thread)
    requires CanAct(c, s, t) && Micro(c, s, t, s', t')
    ensures CanAct(c, s', t') && StepsLeft(c, s', t') < StepsLeft(c, s, t)
  {
  }

  /** A thread inside a call can always make its next access. */
  lemma NeverStuck(c: Config, s: State, t: Thread) returns (s': State, t': Thread)
    requires CanAct(c, s, t) && !t.Idle?
    ensures Micro(c, s, t, s', t')
  {
    match t
    case AddSlot(r) => s', t' := s, TryAddSlot(r, s.counts[CountsIndexFor(c, r.value)]);
    case TryAddSlot(r, comparand) =>
      var i := CountsIndexFor(c, r.value);
      s', t' := s.(counts := s.counts[i := comparand + r.count]), AddTotal(r);
      if s.counts[i] != comparand { s', t' := s, TryAddSlot(r, s.counts[i]); }
    case AddTotal(r) => s', t' := s, TryAddTotal(r, s.total);
    case TryAddTotal(r, comparand) =>
      s', t' := s.(total := comparand + r.count), LoadMin(r);
      if s.total != comparand { s', t' := s, TryAddTotal(r, s.total); }
    case LoadMin(r) =>
      s', t' := s, if r.value == 0 || s.min <= r.value then LoadMax(r) else TryMin(r, s.min);
    case TryMin(r, current) =>
      s', t' := s.(min := r.value), LoadMax(r);
      if s.min != current { s', t' := s, LoadMin(r); }
    case LoadMax(r) =>
      s', t' := s, if r.value <= s.max then Idle else TryMax(r, s.max);
    case TryMax(r, current) =>
      s', t' := s.(max := r.value), Idle;
      if s.max != current { s', t' := s, LoadMax(r); }
  }

  ghost predicate MicroAt(c: Config, alone: seq<(State, Thread)>, i: nat)
    requires i + 1 < |alone|
  {
    CanAct(c, alone[i].0, alone[i].1) && Micro(c, alone[i].0, alone[i].1, alone[i + 1].0, alone[i + 1].1)
  }

  /** The accesses of one thread while no other thread acts on the histogram. */
  ghost predicate RunsAlone(c: Config, alone: seq<(State, Thread)>) {
    && alone != [] && CanAct(c, alone[0].0, alone[0].1)
    && forall i | 0 <= i < |alone| - 1 :: MicroAt(c, alone, i)
  }

  lemma {:induction false} AloneDescends(c: Config, alone: seq<(State, Thread)>, i: nat)
    requires RunsAlone(c, alone) && i < |alone|
    ensures CanAct(c, alone[i].0, alone[i].1)
    ensures StepsLeft(c, alone[i].0, alone[i].1) + i <= StepsLeft(c, alone[0].0, alone[0].1)
  {
    if i > 0 {
      AloneDescends(c, alone, i - 1);
      assert MicroAt(c, alone, i - 1);
      MicroDescends(c, alone[i - 1].0, alone[i - 1].1, alone[i].0, alone[i].1);
    }
  }

  /** From wherever a thread stands inside a call, it makes at most eight accesses on its own, and
      when it cannot make another one it has finished. */
  lemma AloneFinishes(c: Config, alone: seq<(State, Thread)>)
    requires RunsAlone(c, alone)
    ensures |alone| <= 9
    ensures var (s, t) := alone[|alone| - 1];
      CanAct(c, s, t) && (t.Idle? || exists s', t' :: Micro(c, s, t, s', t'))
  {
    AloneDescends(c, alone, |alone| - 1);
    var (s, t) := alone[|alone| - 1];
    if !t.Idle? { var s', t' := NeverStuck(c, s, t); }
  }

  /** What a call of its own has done so far to contents that were s0. */
  ghost predicate DoneSoFar(c: Config, s0: State, r: Record, s: State, t: Thread)
    requires |s0.counts| == c.countsLen && Accepts(c, r.value)
  {
    var i := CountsIndexFor(c, r.value);
    var s1 := s0.(counts := s0.counts[i := s0.counts[i] + r.count]);
    var s2 := s1.(total := s0.total + r.count);
    var s3 := s2.(min := NewMin(s0.min, r.value));
    if t.Idle? then s == Recorded(c, s0, r)
    else
      && t.r == r
      && s == (if BeforeSlot(t) then s0 else if BeforeTotal(t) then s1 else if BeforeMin(t) then s2 else s3)
      && (t.TryMin? ==> r.value != 0 && r.value < t.current)
      && (t.TryMax? ==> t.current < r.value)
  }

  lemma MicroDoes(c: Config, s0: State, r: Record, s: State, t: Thread, s': State, t': Thread)
    requires |s0.counts| == c.countsLen && Accepts(c, r.value) && CanAct(c, s, t)
    requires DoneSoFar(c, s0, r, s, t) && Micro(c, s, t, s', t')
    ensures DoneSoFar(c, s0, r, s', t')
  {
  }

  /** A whole call on its own does what hdr_record_values does. */
  lemma AloneRecords(c: Config, r: Record, alone: seq<(State, Thread)>)
    requires RunsAlone(c, alone) && alone[0].1 == AddSlot(r) && alone[|alone| - 1].1.Idle?
    ensures alone[|alone| - 1].0 == Recorded(c, alone[0].0, r)
  {
    AloneDoes(c, r, alone, |alone| - 1);
  }

  lemma {:induction false} AloneDoes(c: Config, r: Record, alone: seq<(State, Thread)>, i: nat)
    requires RunsAlone(c, alone) && alone[0].1 == AddSlot(r) && i < |alone|
    ensures DoneSoFar(c, alone[0].0, r, alone[i].0, alone[i].1)
  {
    if i > 0 {
      AloneDoes(c, r, alone, i - 1);
      assert MicroAt(c, alone, i - 1);
      MicroDoes(c, alone[0].0, r, alone[i - 1].0, alone[i - 1].1, alone[i].0, alone[i].1);
    }
  }

  // ---------- runs ----------

  datatype System = System(shared: State, threads: seq<Thread>)

  /** A call of hdr_record_values_atomic, or the next access of the call that a thread is in. */
  datatype Event = Call(k: nat, r: Record) | Access(k: nat, t: Thread)

  ghost predicate Initial(c: Config, a: System) {
    a.shared == EmptyState(c) && forall k | 0 <= k < |a.threads| :: a.threads[k].Idle?
  }

  /** A call with a value that is not accepted returns at once. */
  ghost predicate Calls(c: Config, a: System, b: System, k: nat, r: Record) {
    && k < |a.threads| && a.threads[k].Idle?
    && b == if Accepts(c, r.value) then System(a.shared, a.threads[k := AddSlot(r)]) else a
  }

  ghost predicate Operates(c: Config, a: System, b: System, k: nat, t: Thread) {
    && k < |a.threads| && CanAct(c, a.shared, a.threads[k])
    && Micro(c, a.shared, a.threads[k], b.shared, t)
    && b == System(b.shared, a.threads[k := t])
  }

  ghost predicate Moves(c: Config, a: System, b: System, e: Event) {
    match e
    case Call(k, r) => Calls(c, a, b, k, r)
    case Access(k, t) => Operates(c, a, b, k, t)
  }

  ghost predicate MovesAt(c: Config, run: seq<System>, events: seq<Event>, i: nat)
    requires i + 1 < |run| && i < |events|
  {
    Moves(c, run[i], run[i + 1], events[i])
  }

  ghost predicate IsRun(c: Config, run: seq<System>, events: seq<Event>) {
    && |run| == |events| + 1 && Initial(c, run[0])
    && forall i | 0 <= i < |events| :: MovesAt(c, run, events, i)
  }

  /** The records of all calls made, by whichever thread. */
  function CallsOf(events: seq<Event>): seq<Record> {
    if events == [] then []
    else
      var e := events[|events| - 1];
      CallsOf(events[..|events| - 1]) + if e.Call? then [e.r] else []
  }

  /** Those of them that are accepted. */
  function Accepted(c: Config, rs: seq<Record>): seq<Record> {
    if rs == [] then []
    else
      var r := rs[|rs| - 1];
      Accepted(c, rs[..|rs| - 1]) + if Accepts(c, r.value) then [r] else []
  }

  lemma AcceptedOneMore(c: Config, rs: seq<Record>, r: Record)
    ensures Accepted(c, rs + [r]) == Accepted(c, rs) + if Accepts(c, r.value) then [r] else []
  {
    assert (rs + [r])[..|rs|] == rs;
  }

  /** Calls with other values leave nothing behind. */
  lemma {:induction false} AcceptedSuffice(c: Config, s: State, rs: seq<Record>)
    requires |s.counts| == c.countsLen
    ensures RecordedAll(c, s, Accepted(c, rs)) == RecordedAll(c, s, rs)
  {
    if rs != [] {
      var q, r := rs[..|rs| - 1], rs[|rs| - 1];
      AcceptedSuffice(c, s, q);
      if Accepts(c, r.value) {
        assert (Accepted(c, q) + [r])[..|Accepted(c, q)|] == Accepted(c, q);
      } else {
        assert Accepted(c, q) + [] == Accepted(c, q);
      }
    }
  }

  lemma {:induction false} RunInv(c: Config, run: seq<System>, events: seq<Event>, i: nat)
    requires c.highest <= INT64_MAX && IsRun(c, run, events) && i < |run|
    ensures AtomicInv(c, run[i].shared, run[i].threads, Accepted(c, CallsOf(events[..i])))
  {
    if i == 0 {
      InitialInv(c, run[0].threads);
    } else {
      RunInv(c, run, events, i - 1);
      assert MovesAt(c, run, events, i - 1);
      assert events[..i][..i - 1] == events[..i - 1];
      MoveKeepsInv(c, run[i - 1], run[i], events[i - 1], CallsOf(events[..i - 1]));
    }
  }

  lemma MoveKeepsInv(c: Config, a: System, b: System, e: Event, calls: seq<Record>)
    requires AtomicInv(c, a.shared, a.threads, Accepted(c, calls)) && Moves(c, a, b, e)
    ensures AtomicInv(c, b.shared, b.threads, Accepted(c, calls + if e.Call? then [e.r] else []))
  {
    match e
    case Call(k, r) =>
      AcceptedOneMore(c, calls, r);
      if Accepts(c, r.value) {
        BeginKeepsInv(c, a.shared, a.threads, Accepted(c, calls), k, r);
      } else {
        assert Accepted(c, calls) + [] == Accepted(c, calls);
      }
    case Access(k, t) =>
      assert calls + [] == calls;
      MicroKeepsInv(c, a.shared, a.threads, Accepted(c, calls), k, b.shared, t);
  }

  /** Lock-free recording loses nothing: in every interleaving, whenever no call is in flight, the
      histogram is the sequential one of all calls made so far. */
  lemma AtomicRecordingIsSequential(c: Config, run: seq<System>, events: seq<Event>, i: nat)
    requires c.highest <= INT64_MAX && IsRun(c, run, events) && i < |run|
    requires forall k | 0 <= k < |run[i].threads| :: run[i].threads[k].Idle?
    ensures run[i].shared == RecordedAll(c, EmptyState(c), CallsOf(events[..i]))
    ensures IsSummary(c, CallsOf(events[..i]), run[i].shared)
  {
    var calls := CallsOf(events[..i]);
    RunInv(c, run, events, i);
    QuiescentIsSequential(c, run[i].shared, run[i].threads, Accepted(c, calls));
    AcceptedSuffice(c, EmptyState(c), calls);
    RunMeaning(c, calls);
  }
}
