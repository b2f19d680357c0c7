/** Events reach a thread in the order of their emission, one at a time, and leave no trace in its registers. */
module SchedulerEvents {
  import opened SchedulerState
  import opened SchedulerInvariant

  /** The events of one thread, in order. */
  function EventsOf(q: seq<Event>, t: nat): seq<Event> {
    if q == [] then [] else (if q[0].thread == t then [q[0]] else []) + EventsOf(q[1..], t)
  }

  lemma {:induction false} EventsOfConcat(a: seq<Event>, b: seq<Event>, t: nat)
    ensures EventsOf(a + b, t) == EventsOf(a, t) + EventsOf(b, t)
  {
    if a == [] {
      assert a + b == b;
    } else {
      EventsOfConcat(a[1..], b, t);
      assert (a + b)[1..] == a[1..] + b && (a + b)[0] == a[0];
      var h := if a[0].thread == t then [a[0]] else [];
      assert h + (EventsOf(a[1..], t) + EventsOf(b, t)) == (h + EventsOf(a[1..], t)) + EventsOf(b, t);
    }
  }

  lemma {:induction false} NoEventsOf(q: seq<Event>, t: nat)
    requires forall k {:trigger q[k]} :: 0 <= k < |q| ==> q[k].thread != t
    ensures EventsOf(q, t) == []
  {
    if q != [] {
      NoEventsOf(q[1..], t);
    }
  }

  lemma EventsOfDrop(q: seq<Event>, i: nat, t: nat)
    requires i < |q|
    ensures EventsOf(q, t) == EventsOf(q[..i], t) + (if q[i].thread == t then [q[i]] else []) + EventsOf(q[i + 1..], t)
    ensures EventsOf(Drop(q, i), t) == EventsOf(q[..i], t) + EventsOf(q[i + 1..], t)
  {
    EventsOfConcat(q[..i], q[i + 1..], t);
    EventsOfConcat(q[..i], q[i..], t);
    assert q == q[..i] + q[i..] && q[i..][1..] == q[i + 1..];
  }

  /** The events before position i wait for threads that are busy with another. */
  ghost predicate PassedOver(s: Sched, i: nat)
    requires i <= |s.events| && EventsLive(s)
  {
    forall k {:trigger s.events[k]} :: 0 <= k < i ==> s.threads[s.events[k].thread].processing
  }

  /** What a pass over the event queue does to one thread, th, whose events are q. */
  ghost predicate Served(th: Thread, q: seq<Event>, th': Thread, q': seq<Event>) {
    if th.processing || q == [] then th' == th && q' == q
    else if th.policy == Busy then th' == th && q' == []
    else th' == Delivered(th, q[0]) && q' == q[1..]
  }

  /** What becomes of the rest of the pass after one event has been taken out still adds up for every thread. */
  lemma TakingOne(s: Sched, s1: Sched, i: nat, t: nat)
    requires i < |s.events| && EventsLive(s) && PassedOver(s, i) && t in s.threads && !s.threads[s.events[i].thread].processing
    requires var e := s.events[i];
             s1.threads == (if s.threads[e.thread].policy == Busy then s.threads else s.threads[e.thread := Delivered(s.threads[e.thread], e)])
    requires s1.events == Drop(s.events, i)
    ensures EventsLive(s1) && PassedOver(s1, i)
    ensures forall th, q {:trigger Served(s1.threads[t], EventsOf(s1.events, t), th, q)} ::
              Served(s1.threads[t], EventsOf(s1.events, t), th, q) ==> Served(s.threads[t], EventsOf(s.events, t), th, q)
  {
    if s.events[i].thread == t {
      TakingOwn(s, s1, i, t);
    } else {
      TakingOther(s, s1, i, t);
    }
  }

  /** An event of another thread leaves t and its events as they are. */
  lemma TakingOther(s: Sched, s1: Sched, i: nat, t: nat)
    requires i < |s.events| && EventsLive(s) && PassedOver(s, i) && t in s.threads && s.events[i].thread != t
    requires var e := s.events[i];
             s1.threads == (if s.threads[e.thread].policy == Busy then s.threads else s.threads[e.thread := Delivered(s.threads[e.thread], e)])
    requires s1.events == Drop(s.events, i)
    ensures EventsLive(s1) && PassedOver(s1, i)
    ensures s1.threads[t] == s.threads[t] && EventsOf(s1.events, t) == EventsOf(s.events, t)
  {
    EventsOfDrop(s.events, i, t);
  }

  lemma TakingOwn(s: Sched, s1: Sched, i: nat, t: nat)
    requires i < |s.events| && EventsLive(s) && PassedOver(s, i) && t in s.threads && s.events[i].thread == t && !s.threads[t].processing
    requires var e := s.events[i];
             s1.threads == (if s.threads[t].policy == Busy then s.threads else s.threads[t := Delivered(s.threads[t], e)])
    requires s1.events == Drop(s.events, i)
    ensures EventsLive(s1) && PassedOver(s1, i)
    ensures forall th, q {:trigger Served(s1.threads[t], EventsOf(s1.events, t), th, q)} ::
              Served(s1.threads[t], EventsOf(s1.events, t), th, q) ==> Served(s.threads[t], EventsOf(s.events, t), th, q)
  {
    EventsOfDrop(s.events, i, t);
    NoEventsOf(s.events[..i], t);
  }

  /** A pass serves every thread by itself: at most its oldest event is delivered. */
  lemma {:induction false} PassServesEach(s: Sched, i: nat, t: nat)
    requires i <= |s.events| && EventsLive(s) && PassedOver(s, i) && t in s.threads
    ensures var r := DeliverFrom(s, i);
            t in r.threads.Keys && Served(s.threads[t], EventsOf(s.events, t), r.threads[t], EventsOf(r.events, t))
    decreases |s.events| - i
  {
    var r := DeliverFrom(s, i);
    if i == |s.events| {
      if !s.threads[t].processing {
        NoEventsOf(s.events, t);
      }
    } else {
      var e := s.events[i];
      var th := s.threads[e.thread];
      if th.processing {
        PassServesEach(s, i + 1, t);
      } else {
        var s1 := if th.policy == Busy then s.(events := Drop(s.events, i))
                  else SetThread(s, e.thread, Delivered(th, e)).(events := Drop(s.events, i));
        TakingOne(s, s1, i, t);
        PassServesEach(s1, i, t);
        assert r == DeliverFrom(s1, i);
      }
    }
  }

  /** What a context switch takes from the events of thread t: its oldest, or all of them if the thread refuses events. */
  function Taken(s: Sched, t: nat): seq<Event>
    requires t in s.threads
  {
    var q := EventsOf(s.events, t);
    if s.threads[t].processing || q == [] then [] else if s.threads[t].policy == Busy then q else [q[0]]
  }

  /** Dispatching leaves events alone, and at most ends the suspension of a thread. */
  lemma DispatchLeaves(d: Sched, t: nat)
    requires Queued(d) && t in d.threads
    ensures var r := Dispatch(d);
            r.events == d.events && t in r.threads && (r.threads[t] == d.threads[t] || r.threads[t] == Resumed(d.threads[t]))
  {
  }

  lemma SwitchServes(s: Sched, t: nat) returns (th: Thread)
    requires Valid(s) && t in s.threads
    ensures var r := ContextSwitch(s);
            && Served(s.threads[t], EventsOf(s.events, t), th, EventsOf(r.events, t))
            && t in r.threads && (r.threads[t] == th || r.threads[t] == Resumed(th))
  {
    var s0 := Reschedule(s);
    var d := DeliverFrom(s0, 0);
    PassServesEach(s0, 0, t);
    assert t in d.threads.Keys;
    th := d.threads[t];
    DispatchLeaves(d, t);
    var r := ContextSwitch(s);
    assert r == Dispatch(d);
  }

  lemma SwitchTakes(s: Sched, t: nat)
    requires Valid(s) && t in s.threads
    ensures t in ContextSwitch(s).threads && EventsOf(s.events, t) == Taken(s, t) + EventsOf(ContextSwitch(s).events, t)
  {
    var th := SwitchServes(s, t);
    ServedTakes(s, t, th, EventsOf(ContextSwitch(s).events, t));
  }

  lemma ServedTakes(s: Sched, t: nat, th: Thread, q: seq<Event>)
    requires t in s.threads && Served(s.threads[t], EventsOf(s.events, t), th, q)
    ensures EventsOf(s.events, t) == Taken(s, t) + q
  {
  }

  /** The events that a step which is no context switch queues. */
  function EmissionBy(s: Sched, step: Step): seq<Event>
    requires Valid(s)
  {
    match step
    case Signal(p, id, data) => if p in s.processes then Emitted(s, p, id, data, 0) else []
    case NewProcess(p, eip, esp) =>
      if p in s.processes then []
      else Emitted(CreateThread(s.(processes := s.processes[p := Process(false, [], [])]), p, eip, esp), EVENT_PROCESS, 1, p, 0)
    case Exit =>
      if s.current == 0 then []
      else
        var p := s.threads[s.current].process;
        ExitStaysDefined(s);
        var s1 := KillThreads(Halted(s, p), s.processes[p].members, |s.processes[p].members|);
        Emitted(s1, EVENT_PROCESS, 2, p, 0)
    case _ => []
  }

  lemma {:induction false} KillThreadsProcesses(s: Sched, ts: seq<nat>, n: nat)
    requires n <= |ts|
    ensures KillThreads(s, ts, n).processes == s.processes
  {
    if n > 0 {
      KillThreadsProcesses(s, ts, n - 1);
    }
  }

  lemma ExitStaysDefined(s: Sched)
    requires Valid(s) && s.current != 0
    ensures var p := s.threads[s.current].process;
            p in s.processes && EVENT_PROCESS in KillThreads(Halted(s, p), s.processes[p].members, |s.processes[p].members|).processes
  {
    var p := s.threads[s.current].process;
    assert Member(s, s.current);
    KillThreadsProcesses(Halted(s, p), s.processes[p].members, |s.processes[p].members|);
  }

  lemma {:induction false} EventsOfOthers(q: seq<Event>, u: nat, t: nat)
    requires u != t
    ensures EventsOf(EventsWithout(q, u), t) == EventsOf(q, t)
  {
    if q != [] {
      EventsOfOthers(q[1..], u, t);
      var h := if q[0].thread == u then [] else [q[0]];
      assert EventsWithout(q, u) == h + EventsWithout(q[1..], u);
      EventsOfConcat(h, EventsWithout(q[1..], u), t);
      assert EventsOf(h, t) == if q[0].thread == t then [q[0]] else [];
    }
  }

  lemma {:induction false} KillThreadsEvents(s: Sched, ts: seq<nat>, n: nat, t: nat)
    requires n <= |ts| && t in KillThreads(s, ts, n).threads
    ensures t in s.threads && EventsOf(KillThreads(s, ts, n).events, t) == EventsOf(s.events, t)
    ensures KillThreads(s, ts, n).threads[t] == s.threads[t]
  {
    if n > 0 {
      var s1 := KillThreads(s, ts, n - 1);
      KillThreadsEvents(s, ts, n - 1, t);
      if ts[n - 1] in s1.threads {
        EventsOfOthers(s1.events, ts[n - 1], t);
      }
    }
  }

  lemma ExitAddsEvents(s: Sched, t: nat)
    requires Valid(s) && s.current != 0 && t in s.threads && t in Perform(s, Exit).threads
    ensures EventsOf(Perform(s, Exit).events, t) == EventsOf(s.events, t) + EventsOf(EmissionBy(s, Exit), t)
    ensures Perform(s, Exit).threads[t] == s.threads[t]
  {
    var p := s.threads[s.current].process;
    var ts := s.processes[p].members;
    ExitStaysDefined(s);
    var s1 := KillThreads(Halted(s, p), ts, |ts|);
    KillThreadsEvents(Halted(s, p), ts, |ts|, t);
    EventsOfConcat(s1.events, EmissionBy(s, Exit), t);
  }

  lemma KillCallLeaves(s: Sched, u: nat, t: nat)
    requires Valid(s) && s.current != 0 && t in s.threads && t in Perform(s, KillThreadCall(u)).threads
    ensures EventsOf(Perform(s, KillThreadCall(u)).events, t) == EventsOf(s.events, t)
    ensures Perform(s, KillThreadCall(u)).threads[t] == s.threads[t]
  {
    var victim := if u == 0 then s.current else u;
    if victim in s.threads {
      EventsOfOthers(s.events, victim, t);
    }
  }

  lemma StartAddsEvents(s: Sched, step: Step, t: nat)
    requires Valid(s) && (step.Signal? || step.NewProcess?)
    ensures EventsOf(Perform(s, step).events, t) == EventsOf(s.events, t) + EventsOf(EmissionBy(s, step), t)
  {
    EventsOfConcat(s.events, EmissionBy(s, step), t);
  }

  /** Every other step only adds, at the end, what it emits. */
  lemma StepAddsEvents(s: Sched, step: Step, t: nat)
    requires Valid(s) && !IsSwitch(step) && t in s.threads && t in Perform(s, step).threads
    ensures EventsOf(Perform(s, step).events, t) == EventsOf(s.events, t) + EventsOf(EmissionBy(s, step), t)
  {
    if step.Signal? || step.NewProcess? {
      StartAddsEvents(s, step, t);
    } else if s.current != 0 && step.KillThreadCall? {
      KillCallLeaves(s, step.t, t);
    } else if s.current != 0 && step.Exit? {
      ExitAddsEvents(s, t);
    } else {
      QuietStep(s, step);
    }
  }

  /** All other calls leave the queue of events alone. */
  lemma QuietStep(s: Sched, step: Step)
    requires Valid(s) && !IsSwitch(step) && !step.Signal? && !step.NewProcess?
    requires s.current != 0 ==> !step.KillThreadCall? && !step.Exit?
    ensures Perform(s, step).events == s.events && EmissionBy(s, step) == []
  {
  }

  /** t is alive in every state of the run. */
  predicate Lives(s: Sched, steps: seq<Step>, t: nat)
    requires Valid(s)
    decreases |steps|
  {
    if t !in s.threads then false
    else if steps == [] then true
    else
      PerformKeeps(s, steps[0]);
      Lives(Perform(s, steps[0]), steps[1..], t)
  }

  /** Everything emitted to t during the run, in order. */
  function EmittedTo(s: Sched, steps: seq<Step>, t: nat): seq<Event>
    requires Valid(s)
    decreases |steps|
  {
    if steps == [] then []
    else
      PerformKeeps(s, steps[0]);
      EventsOf(EmissionBy(s, steps[0]), t) + EmittedTo(Perform(s, steps[0]), steps[1..], t)
  }

  /** Everything taken from the queue for t during the run, in order. */
  function TakenFor(s: Sched, steps: seq<Step>, t: nat): seq<Event>
    requires Valid(s) && Lives(s, steps, t)
    decreases |steps|
  {
    if steps == [] then []
    else
      PerformKeeps(s, steps[0]);
      (if IsSwitch(steps[0]) then Taken(s, t) else []) + TakenFor(Perform(s, steps[0]), steps[1..], t)
  }

  lemma SwitchStepTakes(s: Sched, step: Step, t: nat)
    requires Valid(s) && IsSwitch(step) && t in s.threads
    ensures t in Perform(s, step).threads && EventsOf(s.events, t) == Taken(s, t) + EventsOf(Perform(s, step).events, t)
  {
    if step.Tick? {
      TickTakes(s, t);
    } else {
      SwitchTakes(s, t);
    }
  }

  lemma TickTakes(s: Sched, t: nat)
    requires Valid(s) && t in s.threads
    ensures t in Perform(s, Tick).threads && EventsOf(s.events, t) == Taken(s, t) + EventsOf(Perform(s, Tick).events, t)
  {
    LaterIsValid(s);
    SwitchTakes(Later(s), t);
    LaterTakes(s, t);
    TickSwitches(s);
  }

  lemma LaterTakes(s: Sched, t: nat)
    requires t in s.threads
    ensures t in Later(s).threads && Later(s).events == s.events && Taken(Later(s), t) == Taken(s, t)
  {
  }

  lemma TickSwitches(s: Sched)
    requires Valid(s) && Valid(Later(s))
    ensures Perform(s, Tick) == ContextSwitch(Later(s))
  {
  }

  lemma StepBalances(s: Sched, step: Step, t: nat)
    requires Valid(s) && t in s.threads && t in Perform(s, step).threads
    ensures EventsOf(s.events, t) + EventsOf(EmissionBy(s, step), t) ==
            (if IsSwitch(step) then Taken(s, t) else []) + EventsOf(Perform(s, step).events, t)
  {
    if IsSwitch(step) {
      SwitchBalances(s, step, t);
    } else {
      StepAddsEvents(s, step, t);
    }
  }

  lemma SwitchBalances(s: Sched, step: Step, t: nat)
    requires Valid(s) && t in s.threads && t in Perform(s, step).threads && IsSwitch(step)
    ensures EventsOf(EmissionBy(s, step), t) == [] && EventsOf(s.events, t) == Taken(s, t) + EventsOf(Perform(s, step).events, t)
  {
    SwitchStepTakes(s, step, t);
  }

  /** First in, first out: over any run, what waited for t and what was emitted to it is what it was given and what still waits. */
  lemma {:induction false} FirstInFirstOut(s: Sched, steps: seq<Step>, t: nat)
    requires Valid(s) && Lives(s, steps, t)
    ensures EventsOf(s.events, t) + EmittedTo(s, steps, t) == TakenFor(s, steps, t) + EventsOf(Run(s, steps).events, t)
    decreases |steps|
  {
    if steps != [] {
      var step := steps[0];
      PerformKeeps(s, step);
      var r := Perform(s, step);
      assert t in r.threads;
      StepBalances(s, step, t);
      FirstInFirstOut(r, steps[1..], t);
      Regroup(EventsOf(s.events, t), EventsOf(EmissionBy(s, step), t), EmittedTo(r, steps[1..], t),
              if IsSwitch(step) then Taken(s, t) else [], EventsOf(r.events, t), TakenFor(r, steps[1..], t), EventsOf(Run(s, steps).events, t));
    }
  }

  lemma Regroup(a: seq<Event>, b: seq<Event>, c: seq<Event>, d: seq<Event>, e: seq<Event>, f: seq<Event>, g: seq<Event>)
    requires a + b == d + e && e + c == f + g
    ensures a + (b + c) == (d + f) + g
  {
    calc {
      a + (b + c);
      (a + b) + c;
      (d + e) + c;
      d + (e + c);
      d + (f + g);
      (d + f) + g;
    }
  }

  // ---------------------------------------------------------------------------- the handler runs to its end

  /** Thread t ends its event with this step. */
  predicate Ends(s: Sched, step: Step, t: nat) {
    step.EndEvent? && s.current == t && t != 0
  }

  lemma SwitchKeepsBackup(s: Sched, step: Step, t: nat)
    requires Valid(s) && t in s.threads && s.threads[t].processing && IsSwitch(step)
    ensures t in Perform(s, step).threads
    ensures Perform(s, step).threads[t].processing && Perform(s, step).threads[t].backup == s.threads[t].backup
  {
    LaterIsValid(s);
    var b := if step.Tick? then Later(s) else s;
    var th := SwitchServes(b, t);
    var r := ContextSwitch(b);
    assert Perform(s, step) == r;
  }

  /** A step that is neither a context switch nor the end of something writes to no backup. */
  lemma PlainStepKeepsBackup(s: Sched, step: Step, t: nat)
    requires Valid(s) && t in s.threads && s.threads[t].processing && !Ends(s, step, t)
    requires !IsSwitch(step) && !step.Exit? && !step.KillThreadCall? && t in Perform(s, step).threads
    ensures Perform(s, step).threads[t].processing && Perform(s, step).threads[t].backup == s.threads[t].backup
  {
    assert Member(s, t);
  }

  /** While a thread works on an event nothing but the end of it touches what was set aside. */
  lemma BackupStays(s: Sched, step: Step, t: nat)
    requires Valid(s) && t in s.threads && s.threads[t].processing && !Ends(s, step, t) && t in Perform(s, step).threads
    ensures Perform(s, step).threads[t].processing && Perform(s, step).threads[t].backup == s.threads[t].backup
  {
    if IsSwitch(step) {
      SwitchKeepsBackup(s, step, t);
    } else if step.Exit? {
      if s.current != 0 {
        ExitAddsEvents(s, t);
      }
    } else if step.KillThreadCall? {
      if s.current != 0 {
        KillCallLeaves(s, step.t, t);
      }
    } else {
      PlainStepKeepsBackup(s, step, t);
    }
  }

  /** t works on an event from the first to the last state of the run. */
  predicate Handling(s: Sched, steps: seq<Step>, t: nat)
    requires Valid(s)
    decreases |steps|
  {
    if t !in s.threads then false
    else if steps == [] then true
    else if Ends(s, steps[0], t) then false
    else
      PerformKeeps(s, steps[0]);
      Handling(Perform(s, steps[0]), steps[1..], t)
  }

  lemma {:induction false} BackupStaysInRun(s: Sched, steps: seq<Step>, t: nat)
    requires Valid(s) && Handling(s, steps, t) && s.threads[t].processing
    ensures var r := Run(s, steps);
            && t in r.threads && r.threads[t].processing && r.threads[t].backup == s.threads[t].backup
            && Lives(s, steps, t) && TakenFor(s, steps, t) == []
    decreases |steps|
  {
    if steps != [] {
      PerformKeeps(s, steps[0]);
      var r := Perform(s, steps[0]);
      assert t in r.threads;
      BackupStays(s, steps[0], t);
      BackupStaysInRun(r, steps[1..], t);
    }
  }

  /**
   A context switch delivers an event to t; whatever happens until t ends it, t is given no
   other event, and then its registers are what they were before the delivery.
   */
  lemma RegistersComeBack(s: Sched, steps: seq<Step>, t: nat)
    requires Valid(s) && t in s.threads && !s.threads[t].processing && s.threads[t].policy != Busy && EventsOf(s.events, t) != []
    requires Valid(ContextSwitch(s)) && Handling(ContextSwitch(s), steps, t) && Run(ContextSwitch(s), steps).current == t
    ensures var e := EventsOf(s.events, t)[0];
            && ContextSwitch(s).threads[t].registers == s.threads[t].registers.(eip := e.handler, esp := s.threads[t].registers.esp - 12)
            && Lives(ContextSwitch(s), steps, t) && TakenFor(ContextSwitch(s), steps, t) == []
            && var r := Perform(Run(ContextSwitch(s), steps), EndEvent);
            t in r.threads && r.threads[t].registers == s.threads[t].registers && !r.threads[t].processing
  {
    var th := SwitchServes(s, t);
    Handled(s, ContextSwitch(s), steps, t, th);
  }

  lemma Handled(s: Sched, d: Sched, steps: seq<Step>, t: nat, th: Thread)
    requires t in s.threads && !s.threads[t].processing && s.threads[t].policy != Busy && EventsOf(s.events, t) != []
    requires Valid(d) && t in d.threads && Served(s.threads[t], EventsOf(s.events, t), th, EventsOf(d.events, t)) && (d.threads[t] == th || d.threads[t] == Resumed(th))
    requires Handling(d, steps, t) && Run(d, steps).current == t
    ensures d.threads[t].registers == th.registers && th == Delivered(s.threads[t], EventsOf(s.events, t)[0])
    ensures Lives(d, steps, t) && TakenFor(d, steps, t) == []
    ensures var r := Perform(Run(d, steps), EndEvent);
            t in r.threads && r.threads[t].registers == s.threads[t].registers && !r.threads[t].processing
  {
    BackupStaysInRun(d, steps, t);
    EndRestores(Run(d, steps), t);
  }

  lemma EndRestores(s: Sched, t: nat)
    requires Valid(s) && s.current == t && t in s.threads && s.threads[t].processing
    ensures var r := Perform(s, EndEvent);
            t in r.threads && r.threads[t].registers == s.threads[t].backup && !r.threads[t].processing
  {
    assert Member(s, t);
  }
}
