/**
 The mutex and the event of exec_impl.h with any number of threads: every atomic operation
 is one step, and the steps of the threads interleave in any order.
 */
module Sync {

  const LOCKED: nat := 1
  const CONTENDED: nat := 2

  /** Where a thread stands in lai_mutex_lock() or behind it; v is its local copy of the word. */
  datatype MutexPc =
    | Outside
    | Looping(v: nat)
    | Waiting(v: nat)
    | Holding
    | GaveUp
    | Failed

  datatype Mutex = Mutex(val: nat, pcs: seq<MutexPc>)

  predicate IsLocked(v: nat) {
    v % 2 == 1
  }

  predicate IsContended(v: nat) {
    v / 2 % 2 == 1
  }

  /** !(v & ~LAI_MUTEX_BITS) */
  predicate MutexWord(v: nat) {
    v < 4
  }

  /**
   One atomic operation of thread i. `wakes` is what laihost_sync_wait() returns to a waiting
   thread: true for 0, a wake-up, and false for a deadline that has passed.
   */
  function MutexStep(m: Mutex, i: nat, wakes: bool): Mutex
    requires i < |m.pcs|
  {
    match m.pcs[i]
    case Outside => m.(pcs := m.pcs[i := Looping(m.val)])
    case Looping(v) =>
      if !MutexWord(v) then m.(pcs := m.pcs[i := Failed])
      else if !IsLocked(v) then
        if m.val == v then Mutex(LOCKED, m.pcs[i := Holding]) else m.(pcs := m.pcs[i := Looping(m.val)])
      else if !IsContended(v) then
        if m.val == v then Mutex(LOCKED + CONTENDED, m.pcs[i := Waiting(v)]) else m.(pcs := m.pcs[i := Looping(m.val)])
      else m.(pcs := m.pcs[i := Waiting(v)])
    case Waiting(v) => m.(pcs := m.pcs[i := if wakes then Looping(v) else GaveUp])
    case Holding =>
      Mutex(0, m.pcs[i := if MutexWord(m.val) && IsLocked(m.val) then Outside else Failed])
    case GaveUp => m.(pcs := m.pcs[i := Outside])
    case Failed => m
  }

  function Holders(pcs: seq<MutexPc>, n: nat): nat
    requires n <= |pcs|
  {
    if n == 0 then 0 else Holders(pcs, n - 1) + (if pcs[n - 1].Holding? then 1 else 0)
  }

  lemma {:induction false} HoldersUpdate(pcs: seq<MutexPc>, n: nat, i: nat, pc: MutexPc)
    requires n <= |pcs| && i < |pcs|
    ensures Holders(pcs[i := pc], n) == Holders(pcs, n) + (if i >= n then 0 else (if pc.Holding? then 1 else 0) - (if pcs[i].Holding? then 1 else 0))
  {
    if n > 0 {
      HoldersUpdate(pcs, n - 1, i, pc);
    }
  }

  lemma {:induction false} HoldersBound(pcs: seq<MutexPc>, n: nat, i: nat, j: nat)
    requires i < j < n <= |pcs| && pcs[i].Holding? && pcs[j].Holding?
    ensures Holders(pcs, n) >= 2
  {
    if j < n - 1 {
      HoldersBound(pcs, n - 1, i, j);
    } else {
      OneHolder(pcs, n - 1, i);
    }
  }

  lemma {:induction false} OneHolder(pcs: seq<MutexPc>, n: nat, i: nat)
    requires i < n <= |pcs| && pcs[i].Holding?
    ensures Holders(pcs, n) >= 1
  {
    if i < n - 1 {
      OneHolder(pcs, n - 1, i);
    }
  }

  /** The word is unlocked, locked or contended; it is locked exactly while one thread holds it; no assertion fired. */
  ghost predicate MutexInv(m: Mutex) {
    && m.val in {0, 1, 3} && Holders(m.pcs, |m.pcs|) == m.val % 2
    && forall i :: 0 <= i < |m.pcs| ==>
         !m.pcs[i].Failed? && (m.pcs[i].Looping? || m.pcs[i].Waiting? ==> m.pcs[i].v in {0, 1, 3})
  }

  lemma MutexStepKeeps(m: Mutex, i: nat, wakes: bool)
    requires MutexInv(m) && i < |m.pcs|
    ensures MutexInv(MutexStep(m, i, wakes))
  {
    var m' := MutexStep(m, i, wakes);
    HoldersUpdate(m.pcs, |m.pcs|, i, m'.pcs[i]);
    if m.pcs[i].Holding? {
      OneHolder(m.pcs, |m.pcs|, i);
    }
  }

  /** A schedule says which thread moves next, and how a wait ends. */
  type Schedule = seq<(nat, bool)>

  function MutexRun(m: Mutex, schedule: Schedule): Mutex
    decreases |schedule|
  {
    if schedule == [] then m
    else
      var (i, wakes) := schedule[0];
      MutexRun(if i < |m.pcs| then MutexStep(m, i, wakes) else m, schedule[1..])
  }

  lemma {:induction false} MutexRunKeeps(m: Mutex, schedule: Schedule)
    requires MutexInv(m)
    ensures MutexInv(MutexRun(m, schedule)) && |MutexRun(m, schedule).pcs| == |m.pcs|
    decreases |schedule|
  {
    if schedule != [] {
      var (i, wakes) := schedule[0];
      if i < |m.pcs| {
        MutexStepKeeps(m, i, wakes);
        MutexRunKeeps(MutexStep(m, i, wakes), schedule[1..]);
      } else {
        MutexRunKeeps(m, schedule[1..]);
      }
    }
  }

  lemma {:induction false} NoHolders(pcs: seq<MutexPc>, n: nat)
    requires n <= |pcs| && forall i :: 0 <= i < |pcs| ==> pcs[i] == Outside
    ensures Holders(pcs, n) == 0
  {
    if n > 0 {
      NoHolders(pcs, n - 1);
    }
  }

  /** However the threads interleave, no two hold the mutex, it is locked exactly while one does, and no assertion fires. */
  lemma MutualExclusion(threads: nat, schedule: Schedule)
    ensures var m := MutexRun(NewMutex(threads), schedule);
            && |m.pcs| == threads
            && (forall i, j :: 0 <= i < j < threads ==> !(m.pcs[i].Holding? && m.pcs[j].Holding?))
            && (IsLocked(m.val) <==> exists i :: 0 <= i < threads && m.pcs[i].Holding?)
            && (forall i :: 0 <= i < threads ==> !m.pcs[i].Failed?)
  {
    var m0 := NewMutex(threads);
    NoHolders(m0.pcs, threads);
    MutexRunKeeps(m0, schedule);
    var m := MutexRun(m0, schedule);
    forall i, j | 0 <= i < j < threads ensures !(m.pcs[i].Holding? && m.pcs[j].Holding?) {
      if m.pcs[i].Holding? && m.pcs[j].Holding? {
        HoldersBound(m.pcs, threads, i, j);
      }
    }
    if i :| 0 <= i < threads && m.pcs[i].Holding? {
      OneHolder(m.pcs, threads, i);
    }
    if IsLocked(m.val) {
      var i := SomeHolder(m.pcs, threads);
    }
  }

  lemma {:induction false} SomeHolder(pcs: seq<MutexPc>, n: nat) returns (i: nat)
    requires n <= |pcs| && Holders(pcs, n) > 0
    ensures i < n && pcs[i].Holding?
  {
    if pcs[n - 1].Holding? {
      i := n - 1;
    } else {
      i := SomeHolder(pcs, n - 1);
    }
  }

  /**
   A waiter that has read the word as contended keeps that copy: whatever the others do, it
   never looks at the word again, so it takes the mutex in no run at all.
   */
  ghost predicate Stale(m: Mutex, i: nat) {
    i < |m.pcs| && (m.pcs[i] == Looping(3) || m.pcs[i] == Waiting(3))
  }

  /** Thread i does not give up. */
  ghost predicate Patient(schedule: Schedule, i: nat) {
    forall k :: 0 <= k < |schedule| && schedule[k].0 == i ==> schedule[k].1
  }

  lemma {:induction false} StaleWaiterNeverLocks(m: Mutex, schedule: Schedule, i: nat)
    requires Stale(m, i) && Patient(schedule, i)
    ensures Stale(MutexRun(m, schedule), i)
    decreases |schedule|
  {
    if schedule != [] {
      var (j, wakes) := schedule[0];
      assert schedule[0].0 == i ==> schedule[0].1;
      forall k | 0 <= k < |schedule[1..]| && schedule[1..][k].0 == i ensures schedule[1..][k].1 {
        assert schedule[k + 1].0 == i;
      }
      StaleWaiterNeverLocks(if j < |m.pcs| then MutexStep(m, j, wakes) else m, schedule[1..], i);
    }
  }

  /** One more step in front of a schedule. */
  lemma MutexFirst(m: Mutex, j: nat, rest: Schedule, i: nat)
    requires j < |m.pcs| && Patient(rest, i)
    ensures Patient([(j, true)] + rest, i) && MutexRun(m, [(j, true)] + rest) == MutexRun(MutexStep(m, j, true), rest)
  {
    assert ([(j, true)] + rest)[1..] == rest;
  }

  /** A thread on its way to the mutex whose copy of the word is not contended can still get it. */
  lemma {:induction false} FreshWaiterCanLock(m: Mutex, i: nat) returns (schedule: Schedule)
    requires MutexInv(m) && i < |m.pcs| && (m.pcs[i].Looping? || m.pcs[i].Waiting?) && m.pcs[i].v != 3
    ensures Patient(schedule, i) && i < |MutexRun(m, schedule).pcs| && MutexRun(m, schedule).pcs[i].Holding?
    decreases m.val, m.pcs[i].Waiting?, m.pcs[i].v
  {
    var j := i;
    if m.val != 0 {
      j := SomeHolder(m.pcs, |m.pcs|);
    }
    var next := MutexStep(m, j, true);
    MutexStepKeeps(m, j, true);
    if next.pcs[i].Holding? {
      schedule := [];
    } else {
      schedule := FreshWaiterCanLock(next, i);
    }
    MutexFirst(m, j, schedule, i);
    schedule := [(j, true)] + schedule;
  }

  ghost predicate CanLock(m: Mutex, i: nat) {
    exists schedule: Schedule :: Patient(schedule, i) && i < |MutexRun(m, schedule).pcs| && MutexRun(m, schedule).pcs[i].Holding?
  }

  /** A thread in lai_mutex_lock() can get the mutex, if it is patient, if and only if its copy of the word is not the contended one. */
  lemma LocksIff(m: Mutex, i: nat)
    requires MutexInv(m) && i < |m.pcs| && (m.pcs[i].Looping? || m.pcs[i].Waiting?)
    ensures CanLock(m, i) <==> m.pcs[i].v != LOCKED + CONTENDED
  {
    if m.pcs[i].v != LOCKED + CONTENDED {
      var schedule := FreshWaiterCanLock(m, i);
    } else {
      forall schedule: Schedule | Patient(schedule, i) ensures Stale(MutexRun(m, schedule), i) {
        StaleWaiterNeverLocks(m, schedule, i);
      }
    }
  }

  /** The mutex before anybody has used it. */
  function NewMutex(threads: nat): Mutex {
    Mutex(0, seq(threads, _ => Outside))
  }

  ghost predicate StaleReached(threads: nat) {
    exists schedule: Schedule, i: nat :: Stale(MutexRun(NewMutex(threads), schedule), i)
  }

  /** A thread alone finds the mutex free or holds it. */
  lemma {:induction false} AloneIsNeverStale(m: Mutex, schedule: Schedule)
    requires |m.pcs| <= 1
    requires m.pcs == [] || (m.val == 0 && m.pcs[0] in {Outside, Looping(0)}) || (m.val == 1 && m.pcs[0] == Holding)
    ensures forall i: nat :: !Stale(MutexRun(m, schedule), i)
    decreases |schedule|
  {
    if schedule != [] {
      var (j, wakes) := schedule[0];
      AloneIsNeverStale(if j < |m.pcs| then MutexStep(m, j, wakes) else m, schedule[1..]);
    }
  }

  /** Thread 0 locks; thread 1 marks the word contended, gives up, tries again, and has the stale copy. */
  const DOOM: Schedule := [(0, true), (0, true), (1, true), (1, true), (1, false), (1, true), (1, true)]

  lemma SecondThreadGetsStale(threads: nat)
    requires threads >= 2
    ensures Stale(MutexRun(NewMutex(threads), DOOM), 1)
  {
    var m := NewMutex(threads);
    var m2 := Mutex(1, m.pcs[0 := Looping(0)][0 := Holding]);
    var m4 := Mutex(3, m2.pcs[1 := Looping(1)][1 := Waiting(1)]);
    var m7 := Mutex(3, m4.pcs[1 := GaveUp][1 := Outside][1 := Looping(3)]);
    assert MutexRun(m, DOOM) == MutexRun(m2, DOOM[1..][1..]);
    assert MutexRun(m2, DOOM[1..][1..]) == MutexRun(m4, DOOM[1..][1..][1..][1..]);
    assert MutexRun(m4, DOOM[1..][1..][1..][1..]) == MutexRun(m7, []);
  }

  /** Stale waiters arise as soon as two threads use a mutex. */
  lemma StaleReachedIff(threads: nat)
    ensures StaleReached(threads) <==> threads >= 2
  {
    if threads >= 2 {
      SecondThreadGetsStale(threads);
    } else {
      forall schedule: Schedule, i: nat ensures !Stale(MutexRun(NewMutex(threads), schedule), i) {
        AloneIsNeverStale(NewMutex(threads), schedule);
      }
    }
  }

  // ---------------------------------------------------------------------------- events

  const WAITERS: nat := 0x8000_0000

  /** v & LAI_EVENT_COUNT and v & LAI_EVENT_WAITERS of a 32-bit word */
  function EventCount(v: nat): nat {
    v % WAITERS
  }

  predicate HasWaiters(v: nat) {
    v >= WAITERS
  }

  datatype Op = Wait | Signal | Reset

  /** Between operations, in the loop of one, blocked, or stopped by a failed assertion. */
  datatype EventPc = Ready(op: Op) | InLoop(op: Op, v: nat) | Blocked(v: nat) | Stopped(overflow: bool)

  /** The word, the threads, and how often signals, successful waits and discards have happened. */
  datatype Event = Event(val: nat, pcs: seq<EventPc>, signals: nat, waits: nat, discards: nat)

  /**
   One atomic operation of thread i; `next` is what the thread does after the current operation,
   `wakes` how its wait ends if it is blocked: woken, or past its deadline.
   */
  function EventStep(e: Event, i: nat, next: Op, wakes: bool): Event
    requires i < |e.pcs|
  {
    match e.pcs[i]
    case Ready(op) => e.(pcs := e.pcs[i := InLoop(op, e.val)])
    case InLoop(Wait, v) => WaitStep(e, i, v, next)
    case InLoop(Signal, v) => SignalStep(e, i, v, next)
    case InLoop(Reset, v) => ResetStep(e, i, v, next)
    case Blocked(v) => e.(pcs := e.pcs[i := if wakes then InLoop(Wait, v) else Ready(next)])
    case Stopped(_) => e
  }

  function Retry(e: Event, i: nat, op: Op): Event
    requires i < |e.pcs|
  {
    e.(pcs := e.pcs[i := InLoop(op, e.val)])
  }

  /** lai_event_wait() */
  function WaitStep(e: Event, i: nat, v: nat, next: Op): Event
    requires i < |e.pcs|
  {
    if EventCount(v) > 0 then
      if HasWaiters(v) then e.(pcs := e.pcs[i := Stopped(false)])
      else if e.val == v then e.(val := v - 1, pcs := e.pcs[i := Ready(next)], waits := e.waits + 1)
      else Retry(e, i, Wait)
    else if HasWaiters(v) then e.(pcs := e.pcs[i := Blocked(v)])
    else if e.val == v then e.(val := WAITERS, pcs := e.pcs[i := Blocked(v)])
    else Retry(e, i, Wait)
  }

  /** lai_event_signal() */
  function SignalStep(e: Event, i: nat, v: nat, next: Op): Event
    requires i < |e.pcs|
  {
    if !HasWaiters(v) then
      if v + 1 >= WAITERS then e.(pcs := e.pcs[i := Stopped(true)])
      else if e.val == v then e.(val := v + 1, pcs := e.pcs[i := Ready(next)], signals := e.signals + 1)
      else Retry(e, i, Signal)
    else if EventCount(v) > 0 then e.(pcs := e.pcs[i := Stopped(false)])
    else if e.val == v then e.(val := 1, pcs := e.pcs[i := Ready(next)], signals := e.signals + 1)
    else Retry(e, i, Signal)
  }

  /** lai_event_reset() */
  function ResetStep(e: Event, i: nat, v: nat, next: Op): Event
    requires i < |e.pcs|
  {
    if HasWaiters(v) then e.(pcs := e.pcs[i := if EventCount(v) > 0 then Stopped(false) else Ready(next)])
    else if v == 0 then e.(pcs := e.pcs[i := Ready(next)])
    else if e.val == v then e.(val := 0, pcs := e.pcs[i := Ready(next)], discards := e.discards + v)
    else Retry(e, i, Reset)
  }

  /** A count, or the mark that somebody waits. */
  predicate PureWord(v: nat) {
    v <= WAITERS
  }

  predicate PureThread(pc: EventPc) {
    pc != Stopped(false) && (pc.InLoop? || pc.Blocked? ==> PureWord(pc.v))
  }

  /** The books balance, every copy of the word is a count or the mark, and only an overflow has stopped a thread. */
  ghost predicate EventInv(e: Event) {
    && PureWord(e.val) && e.signals == EventCount(e.val) + e.waits + e.discards
    && forall i :: 0 <= i < |e.pcs| ==> PureThread(e.pcs[i])
  }

  lemma OthersPure(e: Event, i: nat, e': Event)
    requires EventInv(e) && i < |e.pcs| && |e'.pcs| == |e.pcs| && e'.pcs == e.pcs[i := e'.pcs[i]] && PureThread(e'.pcs[i])
    ensures forall k :: 0 <= k < |e'.pcs| ==> PureThread(e'.pcs[k])
  {
    forall k | 0 <= k < |e'.pcs| ensures PureThread(e'.pcs[k]) {
      assert k == i || PureThread(e.pcs[k]);
    }
  }

  lemma WaitStepKeeps(e: Event, i: nat, v: nat, next: Op)
    requires EventInv(e) && i < |e.pcs| && PureWord(v)
    ensures EventInv(WaitStep(e, i, v, next))
  {
    OthersPure(e, i, WaitStep(e, i, v, next));
  }

  lemma SignalStepKeeps(e: Event, i: nat, v: nat, next: Op)
    requires EventInv(e) && i < |e.pcs| && PureWord(v)
    ensures EventInv(SignalStep(e, i, v, next))
  {
    OthersPure(e, i, SignalStep(e, i, v, next));
  }

  lemma ResetStepKeeps(e: Event, i: nat, v: nat, next: Op)
    requires EventInv(e) && i < |e.pcs| && PureWord(v)
    ensures EventInv(ResetStep(e, i, v, next))
  {
    OthersPure(e, i, ResetStep(e, i, v, next));
  }

  lemma EventStepKeeps(e: Event, i: nat, next: Op, wakes: bool)
    requires EventInv(e) && i < |e.pcs|
    ensures EventInv(EventStep(e, i, next, wakes))
  {
    match e.pcs[i]
    case InLoop(Wait, v) => WaitStepKeeps(e, i, v, next);
    case InLoop(Signal, v) => SignalStepKeeps(e, i, v, next);
    case InLoop(Reset, v) => ResetStepKeeps(e, i, v, next);
    case _ => OthersPure(e, i, EventStep(e, i, next, wakes));
  }

  /** Who moves next, what it does after its operation, and how a wait of it ends. */
  type EventSchedule = seq<(nat, Op, bool)>

  function EventRun(e: Event, schedule: EventSchedule): Event
    decreases |schedule|
  {
    if schedule == [] then e
    else
      var (i, next, wakes) := schedule[0];
      EventRun(if i < |e.pcs| then EventStep(e, i, next, wakes) else e, schedule[1..])
  }

  /**
   In every run the word is a pure count or the pure mark, the count is signals minus
   successful waits minus what resets discarded, and the only assertion that can fire is
   the one against overflow.
   */
  lemma {:induction false} EventRunKeeps(e: Event, schedule: EventSchedule)
    requires EventInv(e)
    ensures EventInv(EventRun(e, schedule))
    decreases |schedule|
  {
    if schedule != [] {
      var (i, next, wakes) := schedule[0];
      if i < |e.pcs| {
        EventStepKeeps(e, i, next, wakes);
        EventRunKeeps(EventStep(e, i, next, wakes), schedule[1..]);
      } else {
        EventRunKeeps(e, schedule[1..]);
      }
    }
  }

  /** The overflow assertion stops exactly a signal whose copy of the word is the largest count. */
  lemma OverflowOnly(e: Event, i: nat, next: Op, wakes: bool)
    requires EventInv(e) && i < |e.pcs| && !e.pcs[i].Stopped?
    ensures EventStep(e, i, next, wakes).pcs[i].Stopped? <==> e.pcs[i] == InLoop(Signal, WAITERS - 1)
  {
    if e.pcs[i].InLoop? {
      assert PureThread(e.pcs[i]);
    }
  }

  /** Thread i waits with a copy of the word that is the mark. */
  ghost predicate StaleEvent(e: Event, i: nat) {
    i < |e.pcs| && (e.pcs[i] == InLoop(Wait, WAITERS) || e.pcs[i] == Blocked(WAITERS))
  }

  ghost predicate PatientWait(schedule: EventSchedule, i: nat) {
    forall k :: 0 <= k < |schedule| && schedule[k].0 == i ==> schedule[k].2
  }

  /** A waiter that read the mark keeps that copy too, and its wait never succeeds: only its deadline ends it. */
  lemma {:induction false} StaleEventWaiter(e: Event, schedule: EventSchedule, i: nat)
    requires StaleEvent(e, i) && PatientWait(schedule, i)
    ensures StaleEvent(EventRun(e, schedule), i)
    decreases |schedule|
  {
    if schedule != [] {
      var (j, next, wakes) := schedule[0];
      assert schedule[0].0 == i ==> schedule[0].2;
      forall k | 0 <= k < |schedule[1..]| && schedule[1..][k].0 == i ensures schedule[1..][k].2 {
        assert schedule[k + 1].0 == i;
      }
      StaleEventWaiter(if j < |e.pcs| then EventStep(e, j, next, wakes) else e, schedule[1..], i);
    }
  }

  lemma EventFirst(e: Event, j: nat, rest: EventSchedule, i: nat)
    requires j < |e.pcs| && PatientWait(rest, i)
    ensures PatientWait([(j, Signal, true)] + rest, i)
    ensures EventRun(e, [(j, Signal, true)] + rest) == EventRun(EventStep(e, j, Signal, true), rest)
  {
    assert ([(j, Signal, true)] + rest)[1..] == rest;
  }

  /** While the count is positive a waiter with any other copy than the mark gets through. */
  lemma {:induction false} FreshWaiterSucceeds(e: Event, i: nat) returns (schedule: EventSchedule)
    requires EventInv(e) && EventCount(e.val) > 0 && Waits(e, i) && e.pcs[i].v != WAITERS
    ensures PatientWait(schedule, i) && i < |EventRun(e, schedule).pcs| && EventRun(e, schedule).pcs[i].Ready?
    decreases e.pcs[i].Blocked?, e.pcs[i].v != e.val
  {
    assert PureThread(e.pcs[i]);
    var next := EventStep(e, i, Signal, true);
    EventStepKeeps(e, i, Signal, true);
    schedule := [];
    if !next.pcs[i].Ready? {
      schedule := FreshWaiterSucceeds(next, i);
    }
    EventFirst(e, i, schedule, i);
    schedule := [(i, Signal, true)] + schedule;
  }

  /** Thread i is inside lai_event_wait(). */
  predicate Waits(e: Event, i: nat) {
    i < |e.pcs| && ((e.pcs[i].InLoop? && e.pcs[i].op == Wait) || e.pcs[i].Blocked?)
  }

  /** A thread that is about to signal makes the count positive, unless it is so already. */
  lemma SignalCounts(e: Event, i: nat, j: nat) returns (schedule: EventSchedule)
    requires EventInv(e) && Waits(e, i) && j < |e.pcs| && e.pcs[j] == Ready(Signal)
    ensures PatientWait(schedule, i)
    ensures var r := EventRun(e, schedule); EventInv(r) && EventCount(r.val) > 0 && |r.pcs| == |e.pcs| && r.pcs[i] == e.pcs[i]
  {
    schedule := [];
    if EventCount(e.val) == 0 {
      var e1 := EventStep(e, j, Signal, true);
      var e2 := EventStep(e1, j, Signal, true);
      assert e1.pcs[j] == InLoop(Signal, e.val) && e2.val == 1;
      EventFirst(e1, j, [], i);
      EventFirst(e, j, [(j, Signal, true)], i);
      schedule := [(j, Signal, true)] + [(j, Signal, true)];
      assert EventRun(e, schedule) == e2;
      EventRunKeeps(e, schedule);
    }
  }

  ghost predicate CanSucceed(e: Event, i: nat) {
    exists schedule: EventSchedule :: PatientWait(schedule, i) && i < |EventRun(e, schedule).pcs| && EventRun(e, schedule).pcs[i].Ready?
  }

  lemma {:induction false} EventRunJoins(e: Event, a: EventSchedule, b: EventSchedule, i: nat)
    requires PatientWait(a, i) && PatientWait(b, i)
    ensures PatientWait(a + b, i) && EventRun(e, a + b) == EventRun(EventRun(e, a), b)
    decreases |a|
  {
    if a == [] {
      assert a + b == b;
    } else {
      var (j, next, wakes) := a[0];
      forall k | 0 <= k < |a[1..]| && a[1..][k].0 == i ensures a[1..][k].2 {
        assert a[k + 1].0 == i;
      }
      EventRunJoins(if j < |e.pcs| then EventStep(e, j, next, wakes) else e, a[1..], b, i);
      assert (a + b)[1..] == a[1..] + b;
    }
  }

  /** With some thread about to signal, a wait can succeed, if it is patient, if and only if its copy of the word is not the mark. */
  lemma SucceedsIff(e: Event, i: nat, j: nat)
    requires EventInv(e) && Waits(e, i) && j < |e.pcs| && e.pcs[j] == Ready(Signal)
    ensures CanSucceed(e, i) <==> e.pcs[i].v != WAITERS
  {
    if e.pcs[i].v != WAITERS {
      var a := SignalCounts(e, i, j);
      var b := FreshWaiterSucceeds(EventRun(e, a), i);
      EventRunJoins(e, a, b, i);
    } else {
      forall schedule: EventSchedule | PatientWait(schedule, i) ensures StaleEvent(EventRun(e, schedule), i) {
        StaleEventWaiter(e, schedule, i);
      }
    }
  }

  /** The event before anybody has used it, every thread about to wait. */
  function NewEvent(threads: nat): Event {
    Event(0, seq(threads, _ => Ready(Wait)), 0, 0, 0)
  }

  ghost predicate StaleEventReached(threads: nat) {
    exists schedule: EventSchedule, i: nat :: StaleEvent(EventRun(NewEvent(threads), schedule), i)
  }

  /** Thread 0 marks the word, gives up, waits again, and has the stale copy: one thread is enough. */
  lemma StaleEventReachedIff(threads: nat)
    ensures StaleEventReached(threads) <==> threads >= 1
  {
    var e := NewEvent(threads);
    if threads >= 1 {
      var woken, late := (0, Wait, true), (0, Wait, false);
      var schedule := [woken, woken, late, woken];
      var e1 := e.(pcs := e.pcs[0 := InLoop(Wait, 0)]);
      var e2 := e1.(val := WAITERS, pcs := e1.pcs[0 := Blocked(0)]);
      var e3 := e2.(pcs := e2.pcs[0 := Ready(Wait)]);
      assert EventRun(e, schedule) == EventRun(e1, schedule[1..]);
      assert EventRun(e1, schedule[1..]) == EventRun(e2, schedule[1..][1..]);
      assert EventRun(e2, schedule[1..][1..]) == EventRun(e3, [woken]);
      assert EventRun(e3, [woken]).pcs[0] == InLoop(Wait, WAITERS);
      assert StaleEvent(EventRun(e, schedule), 0);
    } else {
      forall schedule: EventSchedule, i: nat ensures !StaleEvent(EventRun(e, schedule), i) {
        NobodyWaits(e, schedule);
      }
    }
  }

  lemma {:induction false} NobodyWaits(e: Event, schedule: EventSchedule)
    requires e.pcs == []
    ensures EventRun(e, schedule).pcs == []
    decreases |schedule|
  {
    if schedule != [] {
      var (j, next, wakes) := schedule[0];
      NobodyWaits(e, schedule[1..]);
    }
  }
}
