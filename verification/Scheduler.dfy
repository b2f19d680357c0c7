/** The scheduler's entry points on its own state. */
module Scheduler {
  import opened SchedulerState
  import opened SchedulerInvariant
  import opened SchedulerRules
  import opened EventRouting
  import Bits

  class Scheduler {
    var threads: map<nat, Thread>
    var processes: map<nat, Process>
    var queue: seq<nat>
    var events: seq<Event>
    var current: nat
    var elapsed: nat
    var nextId: nat

    function State(): Sched
      reads this
    {
      Sched(threads, processes, queue, events, current, elapsed, nextId)
    }

    /** initialise(): only the process that events of processes are hooked on, which never runs. */
    constructor ()
      ensures Valid(State()) && threads == map[] && queue == [] && current == 0
    {
      threads, processes, queue, events := map[], map[EVENT_PROCESS := Process(false, [], [])], [], [];
      current, elapsed, nextId := 0, 0, 1;
    }

    /** The event at i is out of the queue, and its thread is th now. */
    static lemma TakenOut(s: Sched, i: nat, th: Thread, r: Sched)
      requires i < |s.events| && EventsLive(s)
      requires r == SetThread(s, s.events[i].thread, th).(events := Drop(s.events, i))
      ensures EventsLive(r)
    {
    }

    /** The pass over the event queue. */
    method DeliverEvents()
      requires EventsLive(State())
      modifies this`threads, this`events
      ensures State() == DeliverFrom(old(State()), 0)
    {
      ghost var goal := DeliverFrom(State(), 0);
      var i := 0;
      while i < |events|
        invariant 0 <= i <= |events| && EventsLive(State())
        invariant DeliverFrom(State(), i) == goal
        decreases |events| - i
      {
        if threads[events[i].thread].processing {
          i := i + 1;
        } else {
          DeliverEvent(i);
        }
      }
    }

    /** One event for a thread that works on none: its delivery, or its end if the thread refuses it. */
    method DeliverEvent(i: nat)
      requires EventsLive(State()) && i < |events| && !threads[events[i].thread].processing
      modifies this`threads, this`events
      ensures EventsLive(State()) && events == Drop(old(events), i)
      ensures DeliverFrom(State(), i) == DeliverFrom(old(State()), i)
    {
      ghost var s := State();
      var event := events[i];
      var th := threads[event.thread];
      events := events[..i] + events[i + 1..];
      if th.policy == Busy {
        assert State() == s.(events := Drop(s.events, i));
        TakenOut(s, i, th, State());
      } else {
        th := th.(parked := false, backup := th.registers, processing := true,
                  registers := th.registers.(eip := event.handler, esp := th.registers.esp - 12));
        threads := threads[event.thread := th];
        assert State() == SetThread(s, event.thread, Delivered(s.threads[event.thread], event)).(events := Drop(s.events, i));
        TakenOut(s, i, th, State());
      }
    }

    static lemma RotateOne(q: seq<nat>, i: nat, r: seq<nat>)
      requires i < |q| && r == q[i..] + q[..i]
      ensures r[0] == q[i] && r[1..] == q[i + 1..] + q[..i] && r[1..] + [q[i]] == q[i + 1..] + q[..i + 1]
    {
    }

    /** The loop over the execution queue: one thread after the other is taken from the front, and put back if it may not run. */
    method ExecuteNext()
      requires Queued(State()) && current == 0
      modifies this`threads, this`queue, this`current
      ensures State() == Dispatch(old(State()))
    {
      ghost var s := State();
      var i := 0;
      while i < |queue|
        invariant 0 <= i <= |queue| == |s.queue| && queue == s.queue[i..] + s.queue[..i]
        invariant threads == s.threads && current == 0
        invariant FirstEligible(s, 0) == FirstEligible(s, i)
      {
        RotateOne(s.queue, i, queue);
        var t := queue[0];
        assert t == s.queue[i];
        queue := queue[1..];
        var runs := MayRun(t);
        if runs {
          threads := threads[t := Resumed(threads[t])];
          current := t;
          return;
        }
        queue := queue + [t];
        i := i + 1;
      }
    }

    /** The conditions under which the loop skips a thread. */
    method MayRun(t: nat) returns (runs: bool)
      requires t in threads && threads[t].process in processes
      ensures runs <==> Eligible(State(), t)
      ensures runs <==>
                && !threads[t].parked && !processes[threads[t].process].suspended
                && (threads[t].policy == EventOnly ==> threads[t].processing)
                && (threads[t].suspended ==> 0 < threads[t].resume <= elapsed)
    {
      var th := threads[t];
      if th.policy == EventOnly && !th.processing {
        return false;
      }
      if processes[th.process].suspended {
        return false;
      }
      if th.parked {
        return false;
      }
      if th.suspended {
        if th.resume != 0 {
          return th.resume <= elapsed;
        }
        return false;
      }
      return true;
    }

    /** handle_context_switch() */
    method HandleContextSwitch()
      requires Valid(State())
      modifies this
      ensures State() == ContextSwitch(old(State())) && Valid(State())
      ensures current != 0 ==>
                && current in threads && threads[current].process in processes && !processes[threads[current].process].suspended
                && !threads[current].parked && !threads[current].suspended
                && (threads[current].policy == EventOnly ==> threads[current].processing)
    {
      ghost var s := State();
      ContextSwitchKeeps(s);
      SwitchParts(s);
      if current != 0 {
        queue := queue + [current];
        current := 0;
      }
      assert State() == Reschedule(s);
      DeliverEvents();
      ExecuteNext();
      if current != 0 {
        DispatchedMayRun(s);
      }
    }

    static lemma SwitchParts(s: Sched)
      requires Valid(s)
      ensures var s1 := Reschedule(s);
              && s1.current == 0 && EventsLive(s1)
              && Queued(DeliverFrom(s1, 0)) && ContextSwitch(s) == Dispatch(DeliverFrom(s1, 0))
    {
    }

    /** handle_timer_tick() */
    method HandleTimerTick()
      requires Valid(State())
      modifies this
      ensures State() == Perform(old(State()), Tick) && Valid(State())
    {
      ghost var s := State();
      LaterIsValid(s);
      elapsed := elapsed + TIME_SLICE;
      assert State() == Later(s);
      HandleContextSwitch();
      assert State() == ContextSwitch(Later(s));
    }

    /** emit_event() */
    method EmitEvent(p: nat, id: nat, data: nat)
      requires p in processes
      modifies this`events
      ensures State() == Emit(old(State()), p, id, data)
      ensures old(events) <= events && exists ks: seq<nat> :: Routed(processes[p].hooked, threads, id, data, events[|old(events)|..], ks)
    {
      ghost var s := State();
      var hooked := processes[p].hooked;
      var k := 0;
      while k < |hooked|
        invariant 0 <= k <= |hooked|
        invariant events + Emitted(s, p, id, data, k) == s.events + Emitted(s, p, id, data, 0)
      {
        var l := hooked[k];
        ghost var now := events;
        if Bits.And(l.mask, id) != 0 && l.thread in threads && threads[l.thread].policy != Busy {
          events := events + [Event(l.thread, id, data, l.handler)];
        }
        assert events + Emitted(s, p, id, data, k + 1) == now + Emitted(s, p, id, data, k);
        k := k + 1;
      }
      assert events == s.events + Emitted(s, p, id, data, 0);
      ghost var ks := EmittedIsRouted(s, p, id, data);
      assert events[|s.events|..] == Emitted(s, p, id, data, 0);
    }

    /** A list without one of its values: a cursor runs over it and removes. */
    static method Purge(q: seq<nat>, t: nat) returns (r: seq<nat>)
      ensures r == Without(q, t)
    {
      r := q;
      var i := 0;
      while i < |r|
        invariant 0 <= i <= |r| && Without(q, t) == r[..i] + Without(r[i..], t)
        decreases |r| - i
      {
        assert r[i..] == [r[i]] + r[i + 1..];
        if r[i] == t {
          ghost var r0 := r;
          r := r[..i] + r[i + 1..];
          assert r[i..] == r0[i + 1..] && r[..i] == r0[..i];
        } else {
          assert r[..i + 1] == r[..i] + [r[i]];
          i := i + 1;
        }
      }
    }

    static method PurgeEvents(q: seq<Event>, t: nat) returns (r: seq<Event>)
      ensures r == EventsWithout(q, t)
    {
      r := q;
      var i := 0;
      while i < |r|
        invariant 0 <= i <= |r| && EventsWithout(q, t) == r[..i] + EventsWithout(r[i..], t)
        decreases |r| - i
      {
        assert r[i..] == [r[i]] + r[i + 1..];
        if r[i].thread == t {
          ghost var r0 := r;
          r := r[..i] + r[i + 1..];
          assert r[i..] == r0[i + 1..] && r[..i] == r0[..i];
        } else {
          assert r[..i + 1] == r[..i] + [r[i]];
          i := i + 1;
        }
      }
    }

    /** kill_thread() */
    method KillThread(t: nat, leave: bool)
      requires t in threads
      modifies this`threads, this`processes, this`queue, this`events
      ensures State() == SchedulerState.KillThread(old(State()), t, leave)
    {
      var p := threads[t].process;
      if leave && p in processes {
        var members := Purge(processes[p].members, t);
        processes := processes[p := processes[p].(members := members)];
      }
      events := PurgeEvents(events, t);
      queue := Purge(queue, t);
      threads := threads - {t};
    }

    /** kill_process(), the side of the scheduler. */
    method KillProcess(p: nat)
      requires p in processes && EVENT_PROCESS in processes
      modifies this
      ensures State() == SchedulerState.KillProcess(old(State()), p) && current == Halted(old(State()), p).current
    {
      if current != 0 && current in threads && threads[current].process == p {
        current := 0;
      }
      ghost var s := State();
      var ts := processes[p].members;
      var n := 0;
      while n < |ts|
        invariant 0 <= n <= |ts| && State() == KillThreads(s, ts, n) && processes == s.processes && current == s.current
      {
        if ts[n] in threads {
          KillThread(ts[n], false);
        }
        n := n + 1;
      }
      EmitEvent(EVENT_PROCESS, 2, p);
      processes := processes - {p};
    }

    /** create_thread() */
    method CreateThread(p: nat, eip: nat, esp: int) returns (t: nat)
      requires p in processes
      modifies this
      ensures State() == SchedulerState.CreateThread(old(State()), p, eip, esp) && t == old(nextId)
    {
      t := nextId;
      nextId := nextId + 1;
      threads := threads[t := NewThread(p, eip, esp)];
      processes := processes[p := processes[p].(members := processes[p].members + [t])];
      queue := queue + [t];
    }

    /** create_process() with its main thread scheduled at once. */
    method CreateProcess(p: nat, eip: nat, esp: int)
      requires Valid(State()) && p !in processes
      modifies this
      ensures State() == Perform(old(State()), NewProcess(p, eip, esp)) && Valid(State())
    {
      PerformKeeps(State(), NewProcess(p, eip, esp));
      processes := processes[p := Process(false, [], [])];
      var _ := CreateThread(p, eip, esp);
      EmitEvent(EVENT_PROCESS, 1, p);
    }

    /** manual_context_switch_return() */
    method ManualContextSwitchReturn()
      modifies this`queue, this`current
      ensures State() == Yielded(old(State()))
    {
      queue := queue + [current];
      current := 0;
    }

    /** handle_system_call_hl(): true if the thread is to run on. */
    method HandleSystemCall(call: Step) returns (resume: bool)
      requires Valid(State()) && current != 0 && !(call.Tick? || call.Switch? || call.Signal? || call.NewProcess?)
      modifies this
      ensures State() == Call(old(State()), call) && Valid(State())
      ensures resume <==> current == old(current)
    {
      ghost var s := State();
      CallKeeps(s, call);
      match call {
      case Hook(p, mask, handler) =>
        if p in processes {
          processes := processes[p := processes[p].(hooked := processes[p].hooked + [Listener(current, mask, handler)])];
        }
        resume := true;
      case SetPolicy(n, t) => resume := HandlePolicyCall(n, t);
      case NewThreadCall(eip, esp) =>
        assert Member(s, current);
        var _ := CreateThread(threads[current].process, eip, esp);
        resume := true;
      case KillThreadCall(t) => resume := HandleKillCall(t);
      case Park(t) => resume := HandleParkCall(t);
      case Unpark(t) =>
        if t in threads {
          threads := threads[t := threads[t].(parked := false)];
        }
        resume := true;
      case Exit =>
        assert Member(s, current);
        KillProcess(threads[current].process);
        resume := false;
      case Execute(_) => resume := HandleOwnCall(call);
      case Suspend(_) => resume := HandleOwnCall(call);
      case EndEvent => resume := HandleOwnCall(call);
      case Yield => resume := HandleOwnCall(call);
      }
      assert State() == Call(s, call);
    }

    /** What the running thread does to itself only. */
    method HandleOwnCall(call: Step) returns (resume: bool)
      requires Valid(State()) && current != 0 && (call.Execute? || call.Suspend? || call.EndEvent? || call.Yield?)
      modifies this
      ensures State() == Call(old(State()), call)
      ensures resume <==> current == old(current)
    {
      var th := threads[current];
      match call {
      case Execute(r) =>
        threads := threads[current := th.(registers := r)];
        return true;
      case Suspend(ms) =>
        threads := threads[current := th.(suspended := true, resume := if ms == 0 then 1 else elapsed + ms)];
      case EndEvent =>
        if !th.processing {
          return true;
        }
        threads := threads[current := th.(processing := false, registers := th.backup)];
      case Yield =>
      }
      ManualContextSwitchReturn();
      return false;
    }

    /** Its case 16. */
    method HandleKillCall(t: nat) returns (resume: bool)
      requires Valid(State()) && current != 0
      modifies this
      ensures State() == Call(old(State()), KillThreadCall(t))
      ensures resume <==> current == old(current)
    {
      if t == 0 || t == current {
        KillThread(current, true);
        current := 0;
        return false;
      }
      if t in threads {
        KillThread(t, true);
      }
      return true;
    }

    /** Its case 17. */
    method HandleParkCall(t: nat) returns (resume: bool)
      requires Valid(State()) && current != 0
      modifies this
      ensures State() == Call(old(State()), Park(t))
      ensures resume <==> current == old(current)
    {
      if t == 0 || t == current {
        threads := threads[current := threads[current].(parked := true)];
        ManualContextSwitchReturn();
        return false;
      }
      if t in threads {
        threads := threads[t := threads[t].(parked := true)];
      }
      return true;
    }

    /** Its case 9. */
    method HandlePolicyCall(n: nat, t: nat) returns (resume: bool)
      requires Valid(State()) && current != 0
      modifies this
      ensures State() == Call(old(State()), SetPolicy(n, t))
      ensures resume <==> current == old(current)
    {
      var th := threads[current];
      if n > 2 {
        return true;
      }
      if t != 0 && t != current {
        if t in threads {
          threads := threads[t := threads[t].(policy := PolicyOf(n))];
        }
        return true;
      }
      threads := threads[current := th.(policy := PolicyOf(n))];
      if n == 1 && !th.processing {
        ManualContextSwitchReturn();
        return false;
      }
      return true;
    }

    /** Whatever happens next. */
    method Serve(step: Step)
      requires Valid(State())
      modifies this
      ensures State() == Perform(old(State()), step) && Valid(State())
    {
      PerformKeeps(State(), step);
      match step
      case Tick => HandleTimerTick();
      case Switch => HandleContextSwitch();
      case Signal(p, id, data) =>
        if p in processes {
          EmitEvent(p, id, data);
        }
      case NewProcess(p, eip, esp) =>
        if p !in processes {
          CreateProcess(p, eip, esp);
        }
      case _ =>
        if current != 0 {
          var _ := HandleSystemCall(step);
        }
    }

    /** Any sequence of steps keeps the scheduler in order and ends where the specification says. */
    method ServeAll(steps: seq<Step>)
      requires Valid(State())
      modifies this
      ensures State() == Run(old(State()), steps) && Valid(State())
    {
      ghost var goal := Run(State(), steps);
      var n := 0;
      while n < |steps|
        invariant 0 <= n <= |steps| && Valid(State()) && Run(State(), steps[n..]) == goal
      {
        assert steps[n..][0] == steps[n] && steps[n..][1..] == steps[n + 1..];
        Serve(steps[n]);
        n := n + 1;
      }
    }
  }
}
