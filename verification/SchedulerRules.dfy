/** Who may run, and what the calls of the scheduler are for: parking, suspension, policies, hooks, seen over whole runs. */
module SchedulerRules {
  import opened SchedulerState
  import opened SchedulerInvariant
  import opened SchedulerEvents
  import opened SchedulerFairness
  import opened EventRouting

  // ------------------------------------------------------------------------- dispatch

  lemma SwitchEnds(s: Sched)
    requires Valid(s)
    ensures Valid(Waiting(s)) && ContextSwitch(s) == Dispatch(Waiting(s)) && Valid(ContextSwitch(s))
    ensures Waiting(s).current == 0 && Waiting(s).processes == s.processes && Waiting(s).elapsed == s.elapsed
    ensures Waiting(s).threads.Keys == s.threads.Keys == ContextSwitch(s).threads.Keys
    ensures ContextSwitch(s).processes == s.processes && ContextSwitch(s).elapsed == s.elapsed
  {
    WaitingIsValid(s);
    ContextSwitchKeeps(s);
  }

  /** What a context switch gives a thread: the oldest event that waits for it, if it may take one. */
  predicate Gets(s: Sched, t: nat)
    requires t in s.threads
  {
    EventsOf(s.events, t) != [] && !s.threads[t].processing && s.threads[t].policy != Busy
  }

  /** The pass over the events delivers at most one to a thread, and changes nothing else of it. */
  lemma PassLeaves(s: Sched, t: nat)
    requires EventsLive(s) && t in s.threads
    ensures var r := DeliverFrom(s, 0);
            t in r.threads && r.threads[t] == if Gets(s, t) then Delivered(s.threads[t], EventsOf(s.events, t)[0]) else s.threads[t]
  {
    PassServesEach(s, 0, t);
  }

  /** The thread that is dispatched is no longer suspended; no other has changed. */
  lemma DispatchResumes(w: Sched, t: nat)
    requires Queued(w) && t in w.threads && t != 0 && w.current == 0
    ensures var r := Dispatch(w);
            t in r.threads && r.threads[t] == if r.current == t then Resumed(w.threads[t]) else w.threads[t]
  {
  }

  /** A context switch changes a thread by the delivery of an event and by nothing else, but that it ends the suspension of the thread it dispatches. */
  lemma SwitchLeaves(s: Sched, t: nat)
    requires Valid(s) && t in s.threads
    ensures t in Waiting(s).threads && t in ContextSwitch(s).threads
    ensures Waiting(s).threads[t] == if Gets(s, t) then Delivered(s.threads[t], EventsOf(s.events, t)[0]) else s.threads[t]
    ensures ContextSwitch(s).threads[t] == if ContextSwitch(s).current == t then Resumed(Waiting(s).threads[t]) else Waiting(s).threads[t]
  {
    assert Member(s, t);
    WaitingHolds(s, t);
    SwitchEnds(s);
    DispatchResumes(Waiting(s), t);
  }

  lemma WaitingHolds(s: Sched, t: nat)
    requires Valid(s) && t in s.threads
    ensures t in Waiting(s).threads
    ensures Waiting(s).threads[t] == if Gets(s, t) then Delivered(s.threads[t], EventsOf(s.events, t)[0]) else s.threads[t]
  {
    PassLeaves(Reschedule(s), t);
  }

  /**
   The thread that is dispatched is not parked, nor is its process suspended; an event-only
   thread is dispatched only while it works on an event, and a suspended one only if the time
   it was suspended to has come. A parked thread is freed by an event alone.
   */
  lemma DispatchedMayRun(s: Sched)
    requires Valid(s) && ContextSwitch(s).current != 0
    ensures var r, t := ContextSwitch(s), ContextSwitch(s).current;
            && t in s.threads && t in r.threads && r.threads[t].process in r.processes
            && !r.threads[t].parked && !r.threads[t].suspended && !r.processes[r.threads[t].process].suspended
            && (r.threads[t].policy == EventOnly ==> r.threads[t].processing)
            && (s.threads[t].suspended ==> s.threads[t].resume != 0 && s.threads[t].resume <= s.elapsed)
            && (s.threads[t].parked ==> Gets(s, t))
  {
    SwitchEnds(s);
    var r, t := ContextSwitch(s), ContextSwitch(s).current;
    assert t in r.threads.Keys && Member(r, t);
    SwitchLeaves(s, t);
    var k := SwitchTakesFirst(s);
  }

  /** No thread runs after a context switch exactly if each one is parked, of a suspended process, event-only without an event, or suspended beyond now. */
  lemma IdleIff(s: Sched)
    requires Valid(s)
    ensures var r := ContextSwitch(s);
            r.current == 0 <==>
            forall t {:trigger r.threads[t]} :: t in r.threads && r.threads[t].process in r.processes ==>
              var th := r.threads[t];
              || th.parked || r.processes[th.process].suspended || (th.policy == EventOnly && !th.processing)
              || (th.suspended && (th.resume == 0 || th.resume > r.elapsed))
  {
    SwitchEnds(s);
    var r := ContextSwitch(s);
    if r.current != 0 {
      DispatchedMayRun(s);
    } else {
      forall t | t in r.threads && r.threads[t].process in r.processes
        ensures var th := r.threads[t];
                || th.parked || r.processes[th.process].suspended || (th.policy == EventOnly && !th.processing)
                || (th.suspended && (th.resume == 0 || th.resume > r.elapsed))
      {
        HeldBack(s, t);
      }
    }
  }

  lemma HeldBack(s: Sched, t: nat)
    requires Valid(s) && ContextSwitch(s).current == 0 && t in ContextSwitch(s).threads
    ensures var r, th := ContextSwitch(s), ContextSwitch(s).threads[t];
            th.process in r.processes ==>
              || th.parked || r.processes[th.process].suspended || (th.policy == EventOnly && !th.processing)
              || (th.suspended && (th.resume == 0 || th.resume > r.elapsed))
  {
    SwitchEnds(s);
    var k := SwitchTakesFirst(s);
    var r := ContextSwitch(s);
    assert t in r.threads.Keys && Member(r, t) && t in r.queue;
    var j :| 0 <= j < |Waiting(s).queue| && Waiting(s).queue[j] == t;
    SwitchLeaves(s, t);
  }

  // -------------------------------------------------------------- the other steps and a thread

  /** The step is a call by the running thread. */
  predicate Calls(s: Sched, step: Step) {
    s.current != 0 && !IsSwitch(step) && !step.Signal? && !step.NewProcess?
  }

  /** The thread a call names, 0 being the caller. */
  function Named(s: Sched, u: nat): nat {
    if u == 0 then s.current else u
  }

  /** No step but a context switch touches a thread that does not run, unless it names the thread: parking it, freeing it, or setting its policy. */
  lemma OthersLeftAlone(s: Sched, step: Step, t: nat)
    requires Valid(s) && !IsSwitch(step) && t in s.threads && t != s.current && t in Perform(s, step).threads
    ensures var th, th' := s.threads[t], Perform(s, step).threads[t];
            && th' == th.(parked := th'.parked, policy := th'.policy)
            && th'.parked == (if s.current != 0 && step == Park(t) then true else if s.current != 0 && step == Unpark(t) then false else th.parked)
            && (th'.policy != th.policy ==> s.current != 0 && step.SetPolicy? && step.t == t)
  {
    if Calls(s, step) && step.KillThreadCall? {
      KillCallLeaves(s, step.t, t);
    } else if Calls(s, step) && step.Exit? {
      ExitAddsEvents(s, t);
    } else if !Calls(s, step) {
      assert Member(s, t);
    } else {
      CallLeaves(s, step, t);
    }
  }

  lemma CallLeaves(s: Sched, step: Step, t: nat)
    requires Valid(s) && Calls(s, step) && !step.KillThreadCall? && !step.Exit? && t in s.threads && t != s.current && t in Perform(s, step).threads
    ensures var th, th' := s.threads[t], Perform(s, step).threads[t];
            && th' == th.(parked := th'.parked, policy := th'.policy)
            && th'.parked == (if step == Park(t) then true else if step == Unpark(t) then false else th.parked)
            && (th'.policy != th.policy ==> step.SetPolicy? && step.t == t)
  {
    assert Member(s, t);
    if SetsFlag(step) {
      FlagLeft(s, step, t);
    } else {
      UnnamedLeft(s, step, t);
    }
  }

  lemma FlagLeft(s: Sched, step: Step, t: nat)
    requires Valid(s) && s.current != 0 && SetsFlag(step) && t in s.threads && t != s.current && t != 0
    ensures t in Perform(s, step).threads
    ensures var th, th' := s.threads[t], Perform(s, step).threads[t];
            && th' == th.(parked := th'.parked, policy := th'.policy)
            && th'.parked == (if step == Park(t) then true else if step == Unpark(t) then false else th.parked)
            && (th'.policy != th.policy ==> step.SetPolicy? && step.t == t)
  {
  }

  lemma UnnamedLeft(s: Sched, step: Step, t: nat)
    requires Valid(s) && Calls(s, step) && !step.KillThreadCall? && !step.Exit? && !SetsFlag(step)
    requires t in s.threads && t != s.current && t < s.nextId
    ensures t in Perform(s, step).threads && Perform(s, step).threads[t] == s.threads[t]
  {
  }

  /** What a thread's own calls change of it: each field by one call alone, or by two for the registers. */
  lemma CallerChanges(s: Sched, step: Step)
    requires Valid(s) && Calls(s, step) && s.current in Perform(s, step).threads
    ensures var th, th' := s.threads[s.current], Perform(s, step).threads[s.current];
            && th'.process == th.process && th'.backup == th.backup
            && (th'.policy != th.policy ==> step.SetPolicy?) && (th'.parked != th.parked ==> step.Park? || step.Unpark?)
            && (th'.suspended != th.suspended || th'.resume != th.resume ==> step.Suspend?)
            && (th'.processing != th.processing ==> step.EndEvent?)
            && (th'.registers != th.registers ==> (step.Execute? && th'.registers == step.registers) || (step.EndEvent? && th'.registers == th.backup))
  {
    if step.Exit? {
      ExitEndsCaller(s);
    } else {
      OwnFields(s, step);
    }
  }

  lemma ExitEndsCaller(s: Sched)
    requires Valid(s) && s.current != 0
    ensures s.current !in Perform(s, Exit).threads
  {
    assert Member(s, s.current);
    KillProcessKeeps(s, s.threads[s.current].process);
  }

  /** The step is one of those that set a flag of a thread that they name. */
  predicate SetsFlag(step: Step) {
    step.Park? || step.Unpark? || step.SetPolicy?
  }

  lemma OwnFields(s: Sched, step: Step)
    requires Valid(s) && Calls(s, step) && !step.Exit? && s.current in Perform(s, step).threads
    ensures var th, th' := s.threads[s.current], Perform(s, step).threads[s.current];
            && (SetsFlag(step) ==> th' == th.(policy := th'.policy, parked := th'.parked) && (th'.policy != th.policy ==> step.SetPolicy?) && (th'.parked != th.parked ==> !step.SetPolicy?))
            && (step.Suspend? ==> th' == th.(suspended := th'.suspended, resume := th'.resume))
            && (step.EndEvent? ==> th' == th || th' == th.(processing := false, registers := th.backup))
            && (step.Execute? ==> th' == th.(registers := step.registers))
            && (!SetsFlag(step) && !step.Suspend? && !step.EndEvent? && !step.Execute? ==> th' == th)
  {
    if SetsFlag(step) {
      OwnFlags(s, step);
    } else if step.Suspend? || step.EndEvent? || step.Execute? || step.Yield? {
      OwnWork(s, step);
    } else {
      assert Member(s, s.current);
    }
  }

  lemma OwnFlags(s: Sched, step: Step)
    requires Valid(s) && s.current != 0 && SetsFlag(step)
    ensures s.current in Perform(s, step).threads
    ensures var th, th' := s.threads[s.current], Perform(s, step).threads[s.current];
            th' == th.(policy := th'.policy, parked := th'.parked) && (th'.policy != th.policy ==> step.SetPolicy?) && (th'.parked != th.parked ==> !step.SetPolicy?)
  {
  }

  lemma OwnWork(s: Sched, step: Step)
    requires Valid(s) && s.current != 0 && (step.Suspend? || step.EndEvent? || step.Execute? || step.Yield?)
    ensures s.current in Perform(s, step).threads
    ensures var th, th' := s.threads[s.current], Perform(s, step).threads[s.current];
            && (step.Suspend? ==> th' == th.(suspended := th'.suspended, resume := th'.resume))
            && (step.EndEvent? ==> th' == th || th' == th.(processing := false, registers := th.backup))
            && (step.Execute? ==> th' == th.(registers := step.registers)) && (step.Yield? ==> th' == th)
  {
  }

  /** The calls by which a thread gives up the processor. */
  predicate GivesUp(s: Sched, step: Step)
    requires s.current in s.threads
  {
    match step
    case Suspend(_) => true
    case Yield => true
    case Exit => true
    case EndEvent => s.threads[s.current].processing
    case Park(t) => t == 0 || t == s.current
    case KillThreadCall(t) => t == 0 || t == s.current
    case SetPolicy(n, t) => n == 1 && (t == 0 || t == s.current) && !s.threads[s.current].processing
    case _ => false
  }

  /** By these and no others; unless it ends with the call, the thread then stands at the end of the queue, behind all that stood there. */
  lemma GivesUpIff(s: Sched, step: Step)
    requires Valid(s) && Calls(s, step)
    ensures Perform(s, step).current == if GivesUp(s, step) then 0 else s.current
    ensures GivesUp(s, step) && !step.Exit? && !step.KillThreadCall? ==> Perform(s, step).queue == s.queue + [s.current]
  {
    if step.Exit? {
      ExitHalts(s);
    }
  }

  lemma ExitHalts(s: Sched)
    requires Valid(s) && s.current != 0
    ensures Perform(s, Exit).current == 0
  {
    var p := s.threads[s.current].process;
    KillThreadsCurrent(Halted(s, p), s.processes[p].members, |s.processes[p].members|);
  }

  /** Time goes on by 5 with each tick of the timer, and by nothing else. */
  lemma TimeGoesOn(s: Sched, step: Step)
    requires Valid(s)
    ensures Perform(s, step).elapsed == s.elapsed + if step.Tick? then 5 else 0
  {
    if IsSwitch(step) {
      LaterIsValid(s);
      SwitchEnds(Before(s, step));
    } else if Calls(s, step) && step.Exit? {
      var p := s.threads[s.current].process;
      KillThreadsTime(Halted(s, p), s.processes[p].members, |s.processes[p].members|);
    }
  }

  lemma {:induction false} KillThreadsTime(s: Sched, ts: seq<nat>, n: nat)
    requires n <= |ts|
    ensures KillThreads(s, ts, n).elapsed == s.elapsed && KillThreads(s, ts, n).nextId == s.nextId
  {
    if n > 0 {
      KillThreadsTime(s, ts, n - 1);
    }
  }

  /** No step but a context switch gives the processor to another thread. */
  lemma OnlySwitchesDispatch(s: Sched, step: Step)
    requires Valid(s) && !IsSwitch(step)
    ensures Perform(s, step).current in {0, s.current}
  {
    if Calls(s, step) && step.Exit? {
      var p := s.threads[s.current].process;
      KillThreadsCurrent(Halted(s, p), s.processes[p].members, |s.processes[p].members|);
    }
  }

  lemma {:induction false} KillThreadsCurrent(s: Sched, ts: seq<nat>, n: nat)
    requires n <= |ts|
    ensures KillThreads(s, ts, n).current == s.current
  {
    if n > 0 {
      KillThreadsCurrent(s, ts, n - 1);
    }
  }

  // ------------------------------------------------------------------------- over runs

  /** A thread that is gone stays gone: ids are not used again. */
  lemma StepBringsNobodyBack(s: Sched, step: Step, t: nat)
    requires Valid(s) && t !in s.threads && 0 < t < s.nextId
    ensures t !in Perform(s, step).threads && t < Perform(s, step).nextId
  {
    IdsGrow(s, step);
    if IsSwitch(step) {
      SwitchBringsNobodyBack(s, step, t);
    } else if Calls(s, step) {
      CallBringsNobodyBack(s, step, t);
    }
  }

  lemma SwitchBringsNobodyBack(s: Sched, step: Step, t: nat)
    requires Valid(s) && t !in s.threads && IsSwitch(step)
    ensures t !in Perform(s, step).threads
  {
    LaterIsValid(s);
    SwitchEnds(Before(s, step));
    assert t !in ContextSwitch(Before(s, step)).threads.Keys;
  }

  lemma CallBringsNobodyBack(s: Sched, step: Step, t: nat)
    requires Valid(s) && t !in s.threads && 0 < t < s.nextId && Calls(s, step)
    ensures t !in Perform(s, step).threads
  {
    if step.Exit? {
      assert Member(s, s.current);
      KillProcessKeeps(s, s.threads[s.current].process);
    }
  }

  /** The step leaves a thread that is off the processor and parked where it is: nothing frees it, and no event reaches it. */
  predicate LeavesParked(s: Sched, step: Step, t: nat) {
    step != Unpark(t) && (IsSwitch(step) && t in s.threads ==> s.threads[t].processing || s.threads[t].policy == Busy || EventsOf(s.events, t) == [])
  }

  predicate StaysParked(s: Sched, steps: seq<Step>, t: nat)
    requires Valid(s)
    decreases |steps|
  {
    if steps == [] then true
    else
      PerformKeeps(s, steps[0]);
      LeavesParked(s, steps[0], t) && StaysParked(Perform(s, steps[0]), steps[1..], t)
  }

  /** Parked, or gone for good; and not running. */
  predicate Off(s: Sched, t: nat) {
    s.current != t && 0 < t < s.nextId && (t in s.threads ==> s.threads[t].parked)
  }

  lemma ParkedStep(s: Sched, step: Step, t: nat)
    requires Valid(s) && Off(s, t) && LeavesParked(s, step, t)
    ensures Off(Perform(s, step), t)
  {
    PerformKeeps(s, step);
    if t !in s.threads {
      StepBringsNobodyBack(s, step, t);
    } else if IsSwitch(step) {
      ParkedThroughSwitch(s, step, t);
    } else {
      OnlySwitchesDispatch(s, step);
      IdsGrow(s, step);
      if t in Perform(s, step).threads {
        OthersLeftAlone(s, step, t);
      }
    }
  }

  lemma IdsGrow(s: Sched, step: Step)
    requires Valid(s)
    ensures Perform(s, step).nextId >= s.nextId
  {
    if IsSwitch(step) {
      SwitchKeepsIds(s, step);
    } else if Calls(s, step) && step.Exit? {
      ExitKeepsIds(s);
    }
  }

  lemma SwitchKeepsIds(s: Sched, step: Step)
    requires Valid(s) && IsSwitch(step)
    ensures Perform(s, step).nextId == s.nextId
  {
    LaterIsValid(s);
    WaitingIsValid(Before(s, step));
  }

  lemma ExitKeepsIds(s: Sched)
    requires Valid(s) && s.current != 0
    ensures Perform(s, Exit).nextId == s.nextId
  {
    var p := s.threads[s.current].process;
    KillThreadsTime(Halted(s, p), s.processes[p].members, |s.processes[p].members|);
  }

  lemma ParkedThroughSwitch(s: Sched, step: Step, t: nat)
    requires Valid(s) && Off(s, t) && LeavesParked(s, step, t) && IsSwitch(step) && t in s.threads
    ensures Off(Perform(s, step), t)
  {
    LaterIsValid(s);
    var b := Before(s, step);
    SwitchLeaves(b, t);
    if ContextSwitch(b).current == t {
      DispatchedMayRun(b);
    }
  }

  /** A parked thread does not run until it is freed or an event is delivered to it, whatever happens. */
  lemma {:induction false} ParkedDoesNotRun(s: Sched, steps: seq<Step>, t: nat)
    requires Valid(s) && Off(s, t) && StaysParked(s, steps, t)
    ensures Off(Run(s, steps), t)
    decreases |steps|
  {
    if steps != [] {
      PerformKeeps(s, steps[0]);
      ParkedStep(s, steps[0], t);
      ParkedDoesNotRun(Perform(s, steps[0]), steps[1..], t);
    }
  }

  /** What the park call is for: the thread it names, 0 being the caller, does not run until it is freed or gets an event. */
  lemma AfterPark(s: Sched, u: nat, steps: seq<Step>)
    requires Valid(s) && s.current != 0 && (if u == 0 then s.current else u) in s.threads
    requires Valid(Perform(s, Park(u))) && StaysParked(Perform(s, Park(u)), steps, if u == 0 then s.current else u)
    ensures Run(Perform(s, Park(u)), steps).current != if u == 0 then s.current else u
  {
    var t := if u == 0 then s.current else u;
    assert Member(s, t);
    ParkedDoesNotRun(Perform(s, Park(u)), steps, t);
  }

  /** And unparking frees it: it is no longer parked, and nothing else of the scheduler changes. */
  lemma AfterUnpark(s: Sched, t: nat)
    requires Valid(s) && s.current != 0 && t in s.threads
    ensures var r := Perform(s, Unpark(t));
            r == s.(threads := r.threads) && r.threads == s.threads[t := s.threads[t].(parked := false)]
  {
  }

  /** A delivery frees it as well. */
  lemma DeliveryUnparks(s: Sched, t: nat)
    requires Valid(s) && t in s.threads && Gets(s, t)
    ensures t in ContextSwitch(s).threads && !ContextSwitch(s).threads[t].parked && ContextSwitch(s).threads[t].processing
  {
    SwitchLeaves(s, t);
  }

  function Ticks(steps: seq<Step>): nat {
    if steps == [] then 0 else (if steps[0].Tick? then 1 else 0) + Ticks(steps[1..])
  }

  /** Suspended until a time, 0 being never, or gone for good; and not running. */
  predicate Asleep(s: Sched, t: nat, due: nat) {
    s.current != t && 0 < t < s.nextId && (t in s.threads ==> s.threads[t].suspended && s.threads[t].resume == due)
  }

  lemma AsleepStep(s: Sched, step: Step, t: nat, due: nat)
    requires Valid(s) && Asleep(s, t, due) && (due != 0 ==> s.elapsed + (if step.Tick? then 5 else 0) < due)
    ensures Asleep(Perform(s, step), t, due)
  {
    PerformKeeps(s, step);
    if t !in s.threads {
      StepBringsNobodyBack(s, step, t);
    } else if IsSwitch(step) {
      AsleepThroughSwitch(s, step, t, due);
    } else {
      OnlySwitchesDispatch(s, step);
      IdsGrow(s, step);
      if t in Perform(s, step).threads {
        OthersLeftAlone(s, step, t);
      }
    }
  }

  lemma AsleepThroughSwitch(s: Sched, step: Step, t: nat, due: nat)
    requires Valid(s) && Asleep(s, t, due) && (due != 0 ==> s.elapsed + (if step.Tick? then 5 else 0) < due) && IsSwitch(step) && t in s.threads
    ensures Asleep(Perform(s, step), t, due)
  {
    LaterIsValid(s);
    var b := Before(s, step);
    SwitchLeaves(b, t);
    if ContextSwitch(b).current == t {
      DispatchedMayRun(b);
    }
  }

  /** A suspended thread does not run before its time, ticks of the timer being 5 apart. */
  lemma {:induction false} SuspendedDoesNotRun(s: Sched, steps: seq<Step>, t: nat, due: nat)
    requires Valid(s) && Asleep(s, t, due) && (due != 0 ==> s.elapsed + 5 * Ticks(steps) < due)
    ensures Asleep(Run(s, steps), t, due)
    decreases |steps|
  {
    if steps != [] {
      PerformKeeps(s, steps[0]);
      AsleepStep(s, steps[0], t, due);
      TimeGoesOn(s, steps[0]);
      SuspendedDoesNotRun(Perform(s, steps[0]), steps[1..], t, due);
    }
  }

  /** What the suspend call is for: its caller does not run before so many milliseconds have passed, 0 meaning until the time is not 0. */
  lemma AfterSuspend(s: Sched, ms: nat, steps: seq<Step>)
    requires Valid(s) && s.current != 0 && Valid(Perform(s, Suspend(ms)))
    requires if ms == 0 then s.elapsed + 5 * Ticks(steps) == 0 else 5 * Ticks(steps) < ms
    ensures Run(Perform(s, Suspend(ms)), steps).current != s.current
    ensures s.current in Perform(s, Suspend(ms)).threads && Perform(s, Suspend(ms)).threads[s.current].resume == if ms == 0 then 1 else s.elapsed + ms
  {
    assert Member(s, s.current);
    SuspendedDoesNotRun(Perform(s, Suspend(ms)), steps, s.current, if ms == 0 then 1 else s.elapsed + ms);
  }

  /** Event-only, with no event in work, or gone for good; and not running. */
  predicate Listening(s: Sched, t: nat) {
    s.current != t && 0 < t < s.nextId && (t in s.threads ==> s.threads[t].policy == EventOnly && !s.threads[t].processing)
  }

  /** No event reaches t by this step, and its policy stays. */
  predicate LeavesListening(s: Sched, step: Step, t: nat) {
    !(step.SetPolicy? && step.t == t) && (IsSwitch(step) && t in s.threads ==> EventsOf(s.events, t) == [])
  }

  predicate StaysListening(s: Sched, steps: seq<Step>, t: nat)
    requires Valid(s)
    decreases |steps|
  {
    if steps == [] then true
    else
      PerformKeeps(s, steps[0]);
      LeavesListening(s, steps[0], t) && StaysListening(Perform(s, steps[0]), steps[1..], t)
  }

  lemma ListeningStep(s: Sched, step: Step, t: nat)
    requires Valid(s) && Listening(s, t) && LeavesListening(s, step, t)
    ensures Listening(Perform(s, step), t)
  {
    PerformKeeps(s, step);
    if t !in s.threads {
      StepBringsNobodyBack(s, step, t);
    } else if IsSwitch(step) {
      ListeningThroughSwitch(s, step, t);
    } else {
      OnlySwitchesDispatch(s, step);
      IdsGrow(s, step);
      if t in Perform(s, step).threads {
        OthersLeftAlone(s, step, t);
      }
    }
  }

  lemma ListeningThroughSwitch(s: Sched, step: Step, t: nat)
    requires Valid(s) && Listening(s, t) && LeavesListening(s, step, t) && IsSwitch(step) && t in s.threads
    ensures Listening(Perform(s, step), t)
  {
    LaterIsValid(s);
    var b := Before(s, step);
    SwitchLeaves(b, t);
    if ContextSwitch(b).current == t {
      DispatchedMayRun(b);
    }
  }

  lemma {:induction false} ListeningDoesNotRun(s: Sched, steps: seq<Step>, t: nat)
    requires Valid(s) && Listening(s, t) && StaysListening(s, steps, t)
    ensures Listening(Run(s, steps), t)
    decreases |steps|
  {
    if steps != [] {
      PerformKeeps(s, steps[0]);
      ListeningStep(s, steps[0], t);
      ListeningDoesNotRun(Perform(s, steps[0]), steps[1..], t);
    }
  }

  /** What policy 1 is for: a thread that has it, and works on no event, does not run until one is delivered to it. */
  lemma AfterEventOnly(s: Sched, u: nat, steps: seq<Step>)
    requires Valid(s) && s.current != 0 && (if u == 0 then s.current else u) in s.threads && !s.threads[if u == 0 then s.current else u].processing
    requires Valid(Perform(s, SetPolicy(1, u))) && StaysListening(Perform(s, SetPolicy(1, u)), steps, if u == 0 then s.current else u)
    ensures Run(Perform(s, SetPolicy(1, u)), steps).current != if u == 0 then s.current else u
  {
    var t := if u == 0 then s.current else u;
    assert Member(s, t);
    ListeningDoesNotRun(Perform(s, SetPolicy(1, u)), steps, t);
  }

  // --------------------------------------------------------------------- events and policies

  lemma {:induction false} EmittedNotToBusy(s: Sched, p: nat, id: nat, data: nat, k: nat, t: nat)
    requires p in s.processes && k <= |s.processes[p].hooked| && t in s.threads && s.threads[t].policy == Busy
    ensures EventsOf(Emitted(s, p, id, data, k), t) == []
    decreases |s.processes[p].hooked| - k
  {
    if k < |s.processes[p].hooked| {
      EmittedNotToBusy(s, p, id, data, k + 1, t);
      var e := Emitted(s, p, id, data, k);
      var rest := Emitted(s, p, id, data, k + 1);
      assert e != [] && e != rest ==> e[0].thread != t && e[1..] == rest;
    }
  }

  /** What policy 2 is for: no step queues an event for such a thread, and a context switch delivers none. */
  lemma BusyIsLeftInPeace(s: Sched, step: Step, t: nat)
    requires Valid(s) && t in s.threads && s.threads[t].policy == Busy && t in Perform(s, step).threads
    ensures EventsOf(EmissionBy(s, step), t) == []
    ensures !IsSwitch(step) ==> EventsOf(Perform(s, step).events, t) == EventsOf(s.events, t)
    ensures IsSwitch(step) ==>
              var th, th' := s.threads[t], Perform(s, step).threads[t];
              th'.registers == th.registers && th'.processing == th.processing && th'.parked == th.parked
  {
    EmissionSparesBusy(s, step, t);
    if IsSwitch(step) {
      LaterIsValid(s);
      SwitchLeaves(Before(s, step), t);
    } else {
      StepAddsEvents(s, step, t);
    }
  }

  lemma EmissionSparesBusy(s: Sched, step: Step, t: nat)
    requires Valid(s) && t in s.threads && s.threads[t].policy == Busy && t in Perform(s, step).threads
    ensures EventsOf(EmissionBy(s, step), t) == []
  {
    assert Member(s, t);
    if step.Signal? && step.p in s.processes {
      EmittedNotToBusy(s, step.p, step.id, step.data, 0, t);
    } else if step.NewProcess? && step.p !in s.processes {
      var s1 := CreateThread(s.(processes := s.processes[step.p := Process(false, [], [])]), step.p, step.eip, step.esp);
      EmittedNotToBusy(s1, EVENT_PROCESS, 1, step.p, 0, t);
    } else if step.Exit? && s.current != 0 {
      var p := s.threads[s.current].process;
      ExitStaysDefined(s);
      ExitAddsEvents(s, t);
      var s1 := KillThreads(Halted(s, p), s.processes[p].members, |s.processes[p].members|);
      KillThreadsEvents(Halted(s, p), s.processes[p].members, |s.processes[p].members|, t);
      EmittedNotToBusy(s1, EVENT_PROCESS, 2, p, 0, t);
    }
  }

  /** The numbers of the policies; any other number changes nothing, as does an unknown thread. */
  lemma PolicyNumbers(s: Sched, n: nat, u: nat)
    requires Valid(s) && s.current != 0
    ensures var t, r := if u == 0 then s.current else u, Perform(s, SetPolicy(n, u));
            && (n > 2 || t !in s.threads ==> r == s)
            && (n <= 2 && t in s.threads ==>
                  && t in r.threads && (r.threads[t].policy == Normal <==> n == 0) && (r.threads[t].policy == EventOnly <==> n == 1)
                  && r.threads == s.threads[t := s.threads[t].(policy := r.threads[t].policy)]
                  && r.current == if n == 1 && t == s.current && !s.threads[t].processing then 0 else s.current)
  {
  }

  /** What hooking is for: an event that has a bit of the mask is queued for the thread that hooked last, with its handler, the caller running on. */
  lemma HookedIsTold(s: Sched, p: nat, mask: nat, handler: nat, id: nat, data: nat)
    requires Valid(s) && s.current != 0 && p in s.processes && ShareBit(mask, id) && s.threads[s.current].policy != Busy
    requires Valid(Perform(s, Hook(p, mask, handler)))
    ensures var r := Perform(Perform(s, Hook(p, mask, handler)), Signal(p, id, data));
            |r.events| > |s.events| && r.events[|r.events| - 1] == Event(s.current, id, data, handler) && r.current == s.current
  {
    var r1 := Perform(s, Hook(p, mask, handler));
    var hooked := r1.processes[p].hooked;
    var n := |hooked| - 1;
    assert hooked[n] == Listener(s.current, mask, handler);
    var ks := EmittedIsRouted(r1, p, id, data);
    assert Told(hooked, r1.threads, id, n) && n in ks;
    LastTold(ks, n);
  }

  lemma LastTold(ks: seq<nat>, n: nat)
    requires Increasing(ks) && n in ks && forall i :: 0 <= i < |ks| ==> ks[i] <= n
    ensures ks != [] && ks[|ks| - 1] == n
  {
    LastIsGreatest(ks);
  }

  /** A thread of process p that nothing holds back, about to enter at eip on its stack. */
  predicate Fresh(th: Thread, p: nat, eip: nat, esp: int) {
    && th.process == p && !th.parked && !th.suspended && !th.processing && th.policy == Normal
    && th.registers.eip == eip && th.registers.esp == esp
  }

  /** Those who have hooked event 1 of process 1 are told of each process that starts; its only thread waits at the end of the queue. */
  lemma StartIsTold(s: Sched, p: nat, eip: nat, esp: int) returns (ks: seq<nat>)
    requires Valid(s) && p !in s.processes
    ensures var r := Perform(s, NewProcess(p, eip, esp));
            s.events <= r.events && Routed(s.processes[1].hooked, r.threads, 1, p, r.events[|s.events|..], ks)
    ensures var r, t := Perform(s, NewProcess(p, eip, esp)), s.nextId;
            && t !in s.threads && t in r.threads && p in r.processes && r.processes[p].members == [t] && !r.processes[p].suspended
            && r.queue == s.queue + [t] && r.current == s.current && Fresh(r.threads[t], p, eip, esp)
  {
    var s1 := CreateThread(s.(processes := s.processes[p := Process(false, [], [])]), p, eip, esp);
    ks := EmittedIsRouted(s1, EVENT_PROCESS, 1, p);
    assert s1.processes[1].hooked == s.processes[1].hooked;
    assert s.nextId in s.threads ==> Member(s, s.nextId);
  }

  /** And those who have hooked event 2 of each that ends; no other event is added. */
  lemma EndIsTold(s: Sched) returns (es: seq<Event>, ks: seq<nat>)
    requires Valid(s) && s.current != 0
    ensures var r := Perform(s, Exit);
            && |es| <= |r.events| && r.events[|r.events| - |es|..] == es
            && Routed(s.processes[1].hooked, r.threads, 2, s.threads[s.current].process, es, ks)
            && forall e {:trigger e in r.events[..|r.events| - |es|]} :: e in r.events[..|r.events| - |es|] ==> e in s.events
  {
    var p := s.threads[s.current].process;
    var ts := s.processes[p].members;
    ExitStaysDefined(s);
    KillThreadsProcesses(Halted(s, p), ts, |ts|);
    KillThreadsOnlyDrop(Halted(s, p), ts, |ts|);
    var s1 := KillThreads(Halted(s, p), ts, |ts|);
    es := Emitted(s1, EVENT_PROCESS, 2, p, 0);
    ks := EmittedIsRouted(s1, EVENT_PROCESS, 2, p);
    Behind(s1.events, es);
  }

  lemma Behind(a: seq<Event>, b: seq<Event>)
    ensures (a + b)[|a + b| - |b|..] == b && (a + b)[..|a + b| - |b|] == a
  {
  }

  lemma {:induction false} KillThreadsOnlyDrop(s: Sched, ts: seq<nat>, n: nat)
    requires n <= |ts|
    ensures forall e {:trigger e in KillThreads(s, ts, n).events} :: e in KillThreads(s, ts, n).events ==> e in s.events
  {
    if n > 0 {
      KillThreadsOnlyDrop(s, ts, n - 1);
      var s1 := KillThreads(s, ts, n - 1);
      if ts[n - 1] in s1.threads {
        var r := KillThread(s1, ts[n - 1], false);
        assert r.events == EventsWithout(s1.events, ts[n - 1]);
        forall e | e in r.events ensures e in s.events {
          EventsWithoutIn(s1.events, ts[n - 1], e);
        }
      }
    }
  }

  /** A new thread waits at the end of the queue, held back by nothing, to enter at its entry point on its stack. */
  lemma NewThreadIsReady(s: Sched, eip: nat, esp: int)
    requires Valid(s) && s.current != 0
    ensures var r, t := Perform(s, NewThreadCall(eip, esp)), s.nextId;
            && t !in s.threads && t in r.threads && r.queue == s.queue + [t] && r.current == s.current
            && Fresh(r.threads[t], s.threads[s.current].process, eip, esp)
  {
    assert Member(s, s.current);
    assert s.nextId in s.threads ==> Member(s, s.nextId);
  }

  /** What the kill call is for: exactly the thread it names, 0 being the caller, is gone, with its events; all others are as they were. */
  lemma AfterKill(s: Sched, u: nat)
    requires Valid(s) && s.current != 0
    ensures var t, r := if u == 0 then s.current else u, Perform(s, KillThreadCall(u));
            && r.threads == s.threads - {t} && r.current == (if t == s.current then 0 else s.current)
            && (forall e {:trigger e in r.events} :: e in r.events <==> e in s.events && (t in s.threads ==> e.thread != t))
            && (forall q {:trigger q in r.queue} :: q in r.queue <==> q in s.queue && q != t)
  {
    var t, r := if u == 0 then s.current else u, Perform(s, KillThreadCall(u));
    if t in s.threads {
      forall e ensures e in r.events <==> e in s.events && e.thread != t {
        EventsWithoutIn(s.events, t, e);
      }
      forall q: nat ensures q in r.queue <==> q in s.queue && q != t {
        WithoutIn(s.queue, t, q);
      }
    } else {
      assert t !in s.queue;
    }
  }
}
