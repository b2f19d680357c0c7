/** Round robin: the first thread that may run is dispatched, and a thread that may run is not overtaken for ever. */
module SchedulerFairness {
  import opened SchedulerState
  import opened SchedulerInvariant

  /** The queue a context switch chooses from: the running thread put back, events delivered. */
  function Waiting(s: Sched): Sched
    requires Valid(s)
  {
    DeliverFrom(Reschedule(s), 0)
  }

  ghost predicate NobodyEligible(s: Sched, n: nat)
    requires Valid(s) && n <= |Waiting(s).queue|
  {
    forall k {:trigger Waiting(s).queue[k]} :: 0 <= k < n ==> !Eligible(Waiting(s), Waiting(s).queue[k])
  }

  lemma WaitingIsValid(s: Sched)
    requires Valid(s)
    ensures Valid(Waiting(s)) && Waiting(s).queue == Reschedule(s).queue && Waiting(s).current == 0
  {
    if s.current != 0 {
      YieldKeeps(s);
    }
    DeliverKeeps(Reschedule(s));
  }

  /**
   A context switch dispatches the first thread of the queue that may run, at position k, and
   sends those before it to the end; if no thread may run, none runs and the order is unchanged.
   */
  lemma SwitchTakesFirst(s: Sched) returns (k: nat)
    requires Valid(s)
    ensures var w := Waiting(s);
            var r := ContextSwitch(s);
            && w.queue == Reschedule(s).queue && k <= |w.queue| && NobodyEligible(s, k)
            && (k == |w.queue| ==> r.current == 0 && r.queue == w.queue)
            && (k < |w.queue| ==> r.current == w.queue[k] && Eligible(w, w.queue[k]) && r.queue == w.queue[k + 1..] + w.queue[..k])
  {
    WaitingIsValid(s);
    k := FirstEligible(Waiting(s), 0);
  }

  /** Thread t stands at position p of the queue. */
  predicate At(s: Sched, t: nat, p: nat) {
    p < |s.queue| && s.queue[p] == t
  }

  /** A thread that may run is dispatched, or gets closer to the front. */
  lemma SwitchAdvances(s: Sched, t: nat, p: nat) returns (p': nat)
    requires Valid(s) && At(s, t, p) && t in Waiting(s).threads && Waiting(s).threads[t].process in Waiting(s).processes
    requires Eligible(Waiting(s), t)
    ensures ContextSwitch(s).current == t || (p' < p && At(ContextSwitch(s), t, p'))
  {
    var k := SwitchTakesFirst(s);
    var w := Waiting(s);
    assert w.queue[p] == t;
    if k < p {
      p' := p - k - 1;
      assert ContextSwitch(s).queue[p'] == w.queue[k + 1..][p'];
    } else {
      p' := 0;
    }
  }

  lemma {:induction false} WithoutPlace(q: seq<nat>, t: nat, u: nat, p: nat) returns (p': nat)
    requires p < |q| && q[p] == u && u != t
    ensures p' <= p && p' < |Without(q, t)| && Without(q, t)[p'] == u
  {
    if p == 0 {
      p' := 0;
    } else {
      p' := WithoutPlace(q[1..], t, u, p - 1);
      if q[0] != t {
        p' := p' + 1;
      }
    }
  }

  lemma {:induction false} KillThreadsPlace(s: Sched, ts: seq<nat>, n: nat, t: nat, p: nat) returns (p': nat)
    requires n <= |ts| && At(s, t, p) && t in KillThreads(s, ts, n).threads
    ensures p' <= p && At(KillThreads(s, ts, n), t, p')
  {
    if n == 0 {
      p' := p;
    } else {
      p' := KillThreadsPlace(s, ts, n - 1, t, p);
      var s1 := KillThreads(s, ts, n - 1);
      if ts[n - 1] in s1.threads {
        p' := WithoutPlace(s1.queue, ts[n - 1], t, p');
      }
    }
  }

  /** No other step moves a thread back. */
  lemma StepKeepsPlace(s: Sched, step: Step, t: nat, p: nat) returns (p': nat)
    requires Valid(s) && At(s, t, p) && !IsSwitch(step) && t in Perform(s, step).threads
    ensures p' <= p && At(Perform(s, step), t, p')
  {
    p' := p;
    if s.current != 0 && step.KillThreadCall? {
      var victim := if step.t == 0 then s.current else step.t;
      if victim in s.threads {
        p' := WithoutPlace(s.queue, victim, t, p);
      }
    } else if s.current != 0 && step.Exit? {
      p' := ExitPlace(s, t, p);
    }
  }

  lemma ExitPlace(s: Sched, t: nat, p: nat) returns (p': nat)
    requires Valid(s) && At(s, t, p) && s.current != 0 && t in Perform(s, Exit).threads
    ensures p' <= p && At(Perform(s, Exit), t, p')
  {
    var victim := s.threads[s.current].process;
    var ts := s.processes[victim].members;
    p' := KillThreadsPlace(Halted(s, victim), ts, |ts|, t, p);
  }

  /** The state that a step which switches starts from. */
  function Before(s: Sched, step: Step): Sched
    requires Valid(s)
  {
    if step.Tick? then Later(s) else s
  }

  /** t lives through the run, and may run at each of its context switches. */
  predicate EligibleThroughout(s: Sched, steps: seq<Step>, t: nat)
    requires Valid(s)
    decreases |steps|
  {
    if t !in s.threads then false
    else if steps == [] then true
    else if IsSwitch(steps[0]) && !EligibleAt(s, steps[0], t) then false
    else
      PerformKeeps(s, steps[0]);
      EligibleThroughout(Perform(s, steps[0]), steps[1..], t)
  }

  predicate EligibleAt(s: Sched, step: Step, t: nat)
    requires Valid(s)
  {
    LaterIsValid(s);
    var w := Waiting(Before(s, step));
    t in w.threads && w.threads[t].process in w.processes && Eligible(w, t)
  }

  function Switches(steps: seq<Step>): nat {
    if steps == [] then 0 else (if IsSwitch(steps[0]) then 1 else 0) + Switches(steps[1..])
  }

  lemma RunPrefix(s: Sched, steps: seq<Step>, n: nat)
    requires Valid(s) && n < |steps|
    ensures Valid(Perform(s, steps[0])) && Run(s, steps[..n + 1]) == Run(Perform(s, steps[0]), steps[1..][..n])
  {
    PerformKeeps(s, steps[0]);
    assert steps[..n + 1][0] == steps[0] && steps[..n + 1][1..] == steps[1..][..n];
  }

  /** One step brings a thread that may run to the processor, or leaves it no further back, after a switch closer. */
  lemma StepAdvances(s: Sched, step: Step, t: nat, p: nat) returns (p': nat)
    requires Valid(s) && At(s, t, p) && t in Perform(s, step).threads && (IsSwitch(step) ==> EligibleAt(s, step, t))
    ensures var r := Perform(s, step);
            if IsSwitch(step) then r.current == t || (p' < p && At(r, t, p')) else p' <= p && At(r, t, p')
  {
    LaterIsValid(s);
    if IsSwitch(step) {
      p' := SwitchAdvances(Before(s, step), t, p);
    } else {
      p' := StepKeepsPlace(s, step, t, p);
    }
  }

  /** The first step of a run, and what it leaves for the rest. */
  lemma FirstStep(s: Sched, steps: seq<Step>, t: nat, p: nat) returns (r: Sched, p': nat)
    requires Valid(s) && At(s, t, p) && EligibleThroughout(s, steps, t) && Switches(steps) > p
    ensures Valid(r) && r == Perform(s, steps[0]) && EligibleThroughout(r, steps[1..], t)
    ensures r.current == t || (At(r, t, p') && Switches(steps[1..]) > p')
  {
    PerformKeeps(s, steps[0]);
    r := Perform(s, steps[0]);
    assert t in r.threads;
    p' := StepAdvances(s, steps[0], t, p);
  }

  /** A thread at position p that may run at every switch is dispatched within p + 1 switches, whatever else happens. */
  lemma {:induction false} DispatchedInTime(s: Sched, steps: seq<Step>, t: nat, p: nat) returns (n: nat)
    requires Valid(s) && At(s, t, p) && EligibleThroughout(s, steps, t) && Switches(steps) > p
    ensures n <= |steps| && Run(s, steps[..n]).current == t
    decreases |steps|
  {
    var r, p' := FirstStep(s, steps, t, p);
    var m := 0;
    if r.current != t {
      m := DispatchedInTime(r, steps[1..], t, p');
    }
    assert Run(r, steps[1..][..m]).current == t;
    RunPrefix(s, steps, m);
    n := m + 1;
  }
}
