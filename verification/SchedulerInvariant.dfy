/** Every step of the scheduler keeps every live thread in exactly one place. */
module SchedulerInvariant {
  import opened SchedulerState

  // ---------------------------------------------------------------------------- lists

  lemma {:induction false} WithoutIn(q: seq<nat>, t: nat, u: nat)
    ensures u in Without(q, t) <==> u in q && u != t
  {
    if q != [] {
      WithoutIn(q[1..], t, u);
      assert q == [q[0]] + q[1..];
    }
  }

  lemma {:induction false} WithoutDistinct(q: seq<nat>, t: nat)
    requires Distinct(q)
    ensures Distinct(Without(q, t))
  {
    if q != [] {
      assert forall i, j {:trigger q[1..][i], q[1..][j]} :: 0 <= i < j < |q[1..]| ==> q[i + 1] != q[j + 1];
      WithoutDistinct(q[1..], t);
      var r := Without(q[1..], t);
      forall k | 0 <= k < |r| ensures r[k] != q[0] {
        WithoutIn(q[1..], t, r[k]);
        assert r[k] in q[1..];
        var m :| 0 <= m < |q[1..]| && q[1..][m] == r[k];
        assert q[m + 1] == r[k] && q[0] != q[m + 1];
      }
    }
  }

  lemma {:induction false} EventsWithoutIn(q: seq<Event>, t: nat, e: Event)
    ensures e in EventsWithout(q, t) <==> e in q && e.thread != t
  {
    if q != [] {
      EventsWithoutIn(q[1..], t, e);
      assert q == [q[0]] + q[1..];
    }
  }

  lemma AppendDistinct(q: seq<nat>, t: nat)
    requires Distinct(q) && t !in q
    ensures Distinct(q + [t])
  {
    forall i, j | 0 <= i < j < |q + [t]| ensures (q + [t])[i] != (q + [t])[j] {
      assert (q + [t])[i] in q;
    }
  }

  // ---------------------------------------------------------------------------- steps

  /** A thread's own fields do not matter to where it stands. */
  lemma SetThreadKeeps(s: Sched, t: nat, th: Thread)
    requires Valid(s) && t in s.threads && th.process == s.threads[t].process
    ensures Valid(SetThread(s, t, th))
  {
    var r := SetThread(s, t, th);
    forall u | u in r.threads ensures Member(r, u) {
      assert Member(s, u);
    }
    forall p | p in r.processes ensures MembersOf(r, p) {
      assert MembersOf(s, p);
    }
  }

  lemma YieldKeeps(s: Sched)
    requires Valid(s) && s.current != 0
    ensures Valid(Yielded(s))
  {
    var r := Yielded(s);
    assert s.current !in s.queue;
    AppendDistinct(s.queue, s.current);
    forall u | u in r.threads ensures Member(r, u) && (u == r.current || u in r.queue) {
      assert Member(s, u);
    }
    forall p | p in r.processes ensures MembersOf(r, p) {
      assert MembersOf(s, p);
    }
    forall k | 0 <= k < |r.queue| ensures r.queue[k] != 0 && r.queue[k] in r.threads && r.threads[r.queue[k]].process in r.processes {
      var u := r.queue[k];
      assert u in s.threads && Member(s, u);
    }
  }

  lemma DeliverKeeps(s: Sched)
    requires Valid(s)
    ensures Valid(DeliverFrom(s, 0))
  {
    var r := DeliverFrom(s, 0);
    forall u | u in r.threads ensures Member(r, u) && (u == r.current || u in r.queue) {
      assert u in s.threads.Keys && Member(s, u);
      assert r.threads[u].process == s.threads[u].process;
    }
    forall p | p in r.processes ensures MembersOf(r, p) {
      assert MembersOf(s, p);
      forall t | t in r.processes[p].members ensures t in r.threads && r.threads[t].process == p {
        assert t in s.threads && t in r.threads.Keys;
        assert r.threads[t].process == s.threads[t].process;
      }
    }
    forall k | 0 <= k < |r.queue| ensures r.queue[k] in r.threads && r.threads[r.queue[k]].process in r.processes {
      assert s.queue[k] in s.threads && s.queue[k] in r.threads.Keys;
      assert r.threads[r.queue[k]].process == s.threads[r.queue[k]].process;
    }
    assert r.current in s.threads ==> r.current in r.threads.Keys;
  }

  lemma DispatchKeeps(s: Sched)
    requires Valid(s) && s.current == 0
    ensures Valid(Dispatch(s))
  {
    var k := FirstEligible(s, 0);
    if k < |s.queue| {
      var t := s.queue[k];
      var s1 := SetThread(s, t, Resumed(s.threads[t]));
      SetThreadKeeps(s, t, Resumed(s.threads[t]));
      var r := Dispatch(s);
      assert r == s1.(queue := s.queue[k + 1..] + s.queue[..k], current := t);
      RotationKeeps(s1, r, k);
    }
  }

  /** A queue with its element k taken out, turned so that what stood before it comes last. */
  lemma Rotated(q: seq<nat>, k: nat)
    requires Distinct(q) && k < |q|
    ensures var r := q[k + 1..] + q[..k];
            && Distinct(r) && (forall j {:trigger r[j]} :: 0 <= j < |r| ==> r[j] in q && r[j] != q[k])
            && forall u {:trigger u in r} :: u in q && u != q[k] ==> u in r
  {
    var n := |q|;
    var r := q[k + 1..] + q[..k];
    forall j | 0 <= j < n - 1 ensures r[j] == q[if j < n - k - 1 then j + k + 1 else j - (n - k - 1)] {
    }
    forall u | u in q && u != q[k] ensures u in r {
      var j :| 0 <= j < n && q[j] == u;
      assert r[if j > k then j - k - 1 else j + n - k - 1] == u;
    }
  }

  lemma RotationKeeps(s: Sched, r: Sched, k: nat)
    requires Valid(s) && s.current == 0 && k < |s.queue|
    requires r == s.(queue := s.queue[k + 1..] + s.queue[..k], current := s.queue[k])
    ensures Valid(r)
  {
    Rotated(s.queue, k);
    forall u | u in r.threads ensures Member(r, u) && (u == r.current || u in r.queue) {
      assert Member(s, u);
    }
    forall p | p in r.processes ensures MembersOf(r, p) {
      assert MembersOf(s, p);
    }
    forall j | 0 <= j < |r.queue| ensures r.queue[j] in r.threads && r.threads[r.queue[j]].process in r.processes {
      assert r.queue[j] in s.queue;
      assert Member(s, r.queue[j]);
    }
    assert Member(s, r.current);
  }

  lemma ContextSwitchKeeps(s: Sched)
    requires Valid(s)
    ensures Valid(ContextSwitch(s))
  {
    if s.current != 0 {
      YieldKeeps(s);
    }
    DeliverKeeps(Reschedule(s));
    DispatchKeeps(DeliverFrom(Reschedule(s), 0));
  }

  lemma {:induction false} EmittedAreLive(s: Sched, p: nat, id: nat, data: nat, k: nat)
    requires p in s.processes && k <= |s.processes[p].hooked|
    ensures forall i {:trigger Emitted(s, p, id, data, k)[i]} :: 0 <= i < |Emitted(s, p, id, data, k)| ==> Emitted(s, p, id, data, k)[i].thread in s.threads
    decreases |s.processes[p].hooked| - k
  {
    if k < |s.processes[p].hooked| {
      EmittedAreLive(s, p, id, data, k + 1);
    }
  }

  lemma EmitKeeps(s: Sched, x: int, p: nat, id: nat, data: nat)
    requires ValidBut(s, x)
    ensures ValidBut(Emit(s, p, id, data), x)
  {
    if p in s.processes {
      EmittedAreLive(s, p, id, data, 0);
      var r := Emit(s, p, id, data);
      forall u | u in r.threads ensures Member(r, u) {
        assert Member(s, u);
      }
      forall q | q in r.processes && q != x ensures MembersOf(r, q) {
        assert MembersOf(s, q);
      }
    }
  }

  lemma CreateThreadKeeps(s: Sched, p: nat, eip: nat, esp: int)
    requires Valid(s) && p in s.processes && p != EVENT_PROCESS
    ensures Valid(CreateThread(s, p, eip, esp))
  {
    var t := s.nextId;
    var r := CreateThread(s, p, eip, esp);
    assert t !in s.threads by {
      assert t in s.threads ==> Member(s, t);
    }
    assert t !in s.queue;
    AppendDistinct(s.queue, t);
    forall u | u in r.threads ensures Member(r, u) && (u == r.current || u in r.queue) {
      if u != t {
        assert Member(s, u);
      }
    }
    forall q | q in r.processes ensures MembersOf(r, q) {
      assert MembersOf(s, q);
      if q == p {
        assert t !in s.processes[p].members;
        AppendDistinct(s.processes[p].members, t);
      }
    }
  }

  /** What a killed thread leaves behind: r is s without thread t. */
  ghost predicate Gone(s: Sched, r: Sched, t: nat) {
    && t in s.threads && r.threads == s.threads - {t} && r.queue == Without(s.queue, t) && r.events == EventsWithout(s.events, t)
    && r.current == (if s.current == t then 0 else s.current) && r.nextId == s.nextId
    && r.processes.Keys == s.processes.Keys
    && forall q {:trigger q in s.processes} :: q in s.processes ==> GoneFrom(s, r, t, q)
  }

  predicate GoneFrom(s: Sched, r: Sched, t: nat, q: nat)
    requires q in s.processes && t in s.threads
  {
    && q in r.processes
    && (r.processes[q].members == s.processes[q].members || (q == s.threads[t].process && r.processes[q].members == Without(s.processes[q].members, t)))
  }

  lemma GoneKeepsPlaces(s: Sched, r: Sched, x: int, t: nat)
    requires ValidBut(s, x) && Gone(s, r, t)
    ensures forall u {:trigger u in r.threads} :: u in r.threads ==> Member(r, u) && (u == r.current || u in r.queue || r.threads[u].process == x)
  {
    forall u | u in r.threads ensures Member(r, u) && (u == r.current || u in r.queue || r.threads[u].process == x) {
      assert Member(s, u);
      WithoutIn(s.queue, t, u);
      var q := s.threads[u].process;
      assert GoneFrom(s, r, t, q);
      WithoutIn(s.processes[q].members, t, u);
    }
  }

  lemma GoneKeepsQueue(s: Sched, r: Sched, x: int, t: nat)
    requires ValidBut(s, x) && Gone(s, r, t)
    ensures Distinct(r.queue) && Queued(r) && forall k {:trigger r.queue[k]} :: 0 <= k < |r.queue| ==> r.queue[k] != r.current
  {
    WithoutDistinct(s.queue, t);
    forall j | 0 <= j < |r.queue| ensures r.queue[j] in r.threads && r.threads[r.queue[j]].process in r.processes && r.queue[j] != r.current {
      var u := r.queue[j];
      WithoutIn(s.queue, t, u);
      var i :| 0 <= i < |s.queue| && s.queue[i] == u;
      assert Member(s, u);
      assert GoneFrom(s, r, t, s.threads[u].process);
      assert u != 0;
    }
  }

  lemma GoneKeepsEvents(s: Sched, r: Sched, t: nat)
    requires EventsLive(s) && Gone(s, r, t)
    ensures EventsLive(r)
  {
    forall j | 0 <= j < |r.events| ensures r.events[j].thread in r.threads {
      EventsWithoutIn(s.events, t, r.events[j]);
      var i :| 0 <= i < |s.events| && s.events[i] == r.events[j];
    }
  }

  lemma KillThreadKeeps(s: Sched, x: int, t: nat, r: Sched)
    requires ValidBut(s, x) && t in s.threads && (x == s.threads[t].process || x == -1)
    requires var k := KillThread(s, t, x == -1);
             r == if s.current == t then k.(current := 0) else k
    ensures ValidBut(r, x) && Gone(s, r, t)
  {
    KillGone(s, x, t, r);
    GoneKeepsPlaces(s, r, x, t);
    GoneKeepsQueue(s, r, x, t);
    GoneKeepsEvents(s, r, t);
    forall q | q in r.processes && q != x ensures MembersOf(r, q) {
      assert q in s.processes.Keys && MembersOf(s, q);
      KillKeepsMembers(s, r, t, q);
    }
    assert Member(s, t) && s.threads[t].process != EVENT_PROCESS;
  }

  lemma KillGone(s: Sched, x: int, t: nat, r: Sched)
    requires ValidBut(s, x) && t in s.threads && (x == s.threads[t].process || x == -1)
    requires var k := KillThread(s, t, x == -1);
             r == if s.current == t then k.(current := 0) else k
    ensures Gone(s, r, t)
  {
    assert Member(s, t);
  }

  lemma KillKeepsMembers(s: Sched, r: Sched, t: nat, q: nat)
    requires q in s.processes && MembersOf(s, q) && t in s.threads && r.threads == s.threads - {t} && q in r.processes
    requires r.processes[q].members == if q == s.threads[t].process then Without(s.processes[q].members, t) else s.processes[q].members
    ensures MembersOf(r, q)
  {
    if q == s.threads[t].process {
      WithoutDistinct(s.processes[q].members, t);
      forall u | u in r.processes[q].members ensures u in r.threads && r.threads[u].process == q {
        WithoutIn(s.processes[q].members, t, u);
      }
    }
  }

  /** r is s without the threads of a list. */
  ghost predicate AllGone(s: Sched, r: Sched, ts: seq<nat>) {
    && r.processes == s.processes && r.current == s.current && r.nextId == s.nextId
    && (forall u {:trigger u in r.threads} :: u in r.threads <==> u in s.threads && u !in ts)
    && (forall u {:trigger r.threads[u]} :: u in r.threads ==> r.threads[u] == s.threads[u])
  }

  lemma {:induction false} KillThreadsKeeps(s: Sched, p: nat, ts: seq<nat>, n: nat)
    requires ValidBut(s, p) && n <= |ts| && Distinct(ts)
    requires forall j {:trigger ts[j]} :: 0 <= j < |ts| ==> ts[j] in s.threads && s.threads[ts[j]].process == p
    requires s.current != 0 ==> s.threads[s.current].process != p
    ensures ValidBut(KillThreads(s, ts, n), p) && AllGone(s, KillThreads(s, ts, n), ts[..n])
  {
    if n > 0 {
      KillThreadsKeeps(s, p, ts, n - 1);
      assert ts[..n] == ts[..n - 1] + [ts[n - 1]];
      OneMoreKilled(s, p, KillThreads(s, ts, n - 1), ts[..n - 1], ts[n - 1]);
    }
  }

  lemma OneMoreKilled(s: Sched, p: nat, s1: Sched, ts: seq<nat>, t: nat)
    requires ValidBut(s1, p) && AllGone(s, s1, ts) && t !in ts && t in s.threads && s.threads[t].process == p && t != s1.current
    ensures t in s1.threads && ValidBut(KillThread(s1, t, false), p) && AllGone(s, KillThread(s1, t, false), ts + [t])
  {
    assert t in s1.threads && s1.threads[t] == s.threads[t];
    var r := KillThread(s1, t, false);
    KillThreadKeeps(s1, p, t, r);
    OneMoreGone(s, s1, r, ts, t);
  }

  lemma OneMoreGone(s: Sched, s1: Sched, r: Sched, ts: seq<nat>, t: nat)
    requires AllGone(s, s1, ts) && t in s1.threads && t != s1.current && r == KillThread(s1, t, false)
    ensures AllGone(s, r, ts + [t])
  {
  }

  lemma KillProcessKeeps(s: Sched, p: nat)
    requires Valid(s) && s.current != 0 && s.threads[s.current].process == p
    ensures p in s.processes && Valid(KillProcess(s, p))
    ensures forall t {:trigger t in KillProcess(s, p).threads} :: t in KillProcess(s, p).threads <==> t in s.threads && s.threads[t].process != p
  {
    assert Member(s, s.current) && MembersOf(s, p) && p != EVENT_PROCESS;
    var ts := s.processes[p].members;
    var s1 := Halted(s, p);
    HaltKeeps(s, p);
    forall j | 0 <= j < |ts| ensures ts[j] in s1.threads && s1.threads[ts[j]].process == p {
      assert ts[j] in s.processes[p].members;
    }
    KillThreadsKeeps(s1, p, ts, |ts|);
    assert ts[..|ts|] == ts;
    var s2 := KillThreads(s1, ts, |ts|);
    EmitKeeps(s2, p, EVENT_PROCESS, 2, p);
    var s3 := Emit(s2, EVENT_PROCESS, 2, p);
    forall t | t in s3.threads ensures s3.threads[t].process != p {
      assert Member(s, t);
    }
    forall t | t in s.threads && s.threads[t].process != p ensures t !in ts {
    }
    RemoveProcessKeeps(s3, p);
  }

  /** The running thread leaves the processor without going to the queue: it is about to be killed. */
  lemma HaltKeeps(s: Sched, p: nat)
    requires Valid(s) && s.current != 0 && s.threads[s.current].process == p
    ensures ValidBut(Halted(s, p), p) && Halted(s, p) == s.(current := 0)
  {
    var r := Halted(s, p);
    forall t | t in r.threads ensures Member(r, t) && (t == r.current || t in r.queue || r.threads[t].process == p) {
      assert Member(s, t);
    }
    forall q | q in r.processes ensures MembersOf(r, q) {
      assert MembersOf(s, q);
    }
    forall k | 0 <= k < |r.queue| ensures r.queue[k] != 0 {
      assert s.queue[k] in s.threads && Member(s, s.queue[k]);
    }
  }

  lemma RemoveProcessKeeps(s: Sched, p: nat)
    requires ValidBut(s, p) && p != EVENT_PROCESS && forall t {:trigger t in s.threads} :: t in s.threads ==> s.threads[t].process != p
    ensures Valid(s.(processes := s.processes - {p}))
  {
    var r := s.(processes := s.processes - {p});
    forall t | t in r.threads ensures Member(r, t) && (t == r.current || t in r.queue) {
      assert Member(s, t);
    }
    forall q | q in r.processes ensures MembersOf(r, q) {
      assert MembersOf(s, q);
    }
    forall k | 0 <= k < |r.queue| ensures r.queue[k] in r.threads && r.threads[r.queue[k]].process in r.processes {
      assert s.queue[k] in s.threads;
    }
  }

  lemma CreateProcessKeeps(s: Sched, p: nat, eip: nat, esp: int)
    requires Valid(s) && p !in s.processes
    ensures Valid(CreateProcess(s, p, eip, esp))
  {
    var s1 := s.(processes := s.processes[p := Process(false, [], [])]);
    forall t | t in s1.threads ensures Member(s1, t) {
      assert Member(s, t);
    }
    forall q | q in s1.processes ensures MembersOf(s1, q) {
      assert q != p ==> MembersOf(s, q);
    }
    forall k | 0 <= k < |s1.queue| ensures s1.queue[k] in s1.threads && s1.threads[s1.queue[k]].process in s1.processes {
      assert s.queue[k] in s.threads;
    }
    CreateThreadKeeps(s1, p, eip, esp);
    EmitKeeps(CreateThread(s1, p, eip, esp), -1, EVENT_PROCESS, 1, p);
  }

  lemma HookKeeps(s: Sched, p: nat, l: Listener)
    requires Valid(s) && p in s.processes
    ensures Valid(s.(processes := s.processes[p := s.processes[p].(hooked := s.processes[p].hooked + [l])]))
  {
    var r := s.(processes := s.processes[p := s.processes[p].(hooked := s.processes[p].hooked + [l])]);
    forall t | t in r.threads ensures Member(r, t) {
      assert Member(s, t);
    }
    forall q | q in r.processes ensures MembersOf(r, q) {
      assert MembersOf(s, q);
    }
    forall k | 0 <= k < |r.queue| ensures r.queue[k] in r.threads && r.threads[r.queue[k]].process in r.processes {
      assert s.queue[k] in s.threads;
    }
  }

  /** The running thread changes something about itself and gives up the processor. */
  lemma SetAndYieldKeeps(s: Sched, th: Thread)
    requires Valid(s) && s.current != 0 && th.process == s.threads[s.current].process
    ensures Valid(SetThread(s, s.current, th)) && Valid(Yielded(SetThread(s, s.current, th)))
  {
    SetThreadKeeps(s, s.current, th);
    YieldKeeps(SetThread(s, s.current, th));
  }

  lemma OwnCallKeeps(s: Sched, step: Step)
    requires Valid(s) && s.current != 0 && (step.Execute? || step.Suspend? || step.EndEvent? || step.Yield?)
    ensures Valid(Call(s, step))
  {
    var th := s.threads[s.current];
    match step
    case Execute(r) => SetThreadKeeps(s, s.current, th.(registers := r));
    case Suspend(ms) => SetAndYieldKeeps(s, th.(suspended := true, resume := if ms == 0 then 1 else s.elapsed + ms));
    case EndEvent => SetAndYieldKeeps(s, th.(processing := false, registers := th.backup));
    case Yield => YieldKeeps(s);
  }

  lemma ParkCallKeeps(s: Sched, step: Step)
    requires Valid(s) && s.current != 0 && step.Park?
    ensures Valid(Call(s, step))
  {
    if step.t != 0 && step.t != s.current {
      if step.t in s.threads {
        SetThreadKeeps(s, step.t, s.threads[step.t].(parked := true));
      }
    } else {
      SetAndYieldKeeps(s, s.threads[s.current].(parked := true));
    }
  }

  lemma UnparkCallKeeps(s: Sched, step: Step)
    requires Valid(s) && s.current != 0 && step.Unpark?
    ensures Valid(Call(s, step))
  {
    if step.t in s.threads {
      SetThreadKeeps(s, step.t, s.threads[step.t].(parked := false));
    }
  }

  lemma PolicyCallKeeps(s: Sched, step: Step)
    requires Valid(s) && s.current != 0 && step.SetPolicy?
    ensures Valid(Call(s, step))
  {
    if step.t != 0 && step.t != s.current {
      if step.t in s.threads {
        SetThreadKeeps(s, step.t, s.threads[step.t].(policy := PolicyOf(step.policy)));
      }
    } else {
      SetAndYieldKeeps(s, s.threads[s.current].(policy := PolicyOf(step.policy)));
    }
  }

  lemma KillCallKeeps(s: Sched, t: nat)
    requires Valid(s) && s.current != 0
    ensures Valid(Call(s, KillThreadCall(t)))
  {
    var r := Call(s, KillThreadCall(t));
    if t == 0 || t == s.current {
      KillThreadKeeps(s, -1, s.current, r);
    } else if t in s.threads {
      KillThreadKeeps(s, -1, t, r);
    }
  }

  lemma CallKeeps(s: Sched, step: Step)
    requires Valid(s) && s.current != 0
    ensures Valid(Call(s, step))
  {
    match step
    case Execute(_) => OwnCallKeeps(s, step);
    case Suspend(_) => OwnCallKeeps(s, step);
    case EndEvent => OwnCallKeeps(s, step);
    case Yield => OwnCallKeeps(s, step);
    case Hook(_, _, _) => HookCallKeeps(s, step);
    case SetPolicy(_, _) => PolicyCallKeeps(s, step);
    case Park(_) => ParkCallKeeps(s, step);
    case Unpark(_) => UnparkCallKeeps(s, step);
    case NewThreadCall(_, _) => NewThreadCallKeeps(s, step);
    case KillThreadCall(t) => KillCallKeeps(s, t);
    case Exit => KillProcessKeeps(s, s.threads[s.current].process);
    case _ =>
  }

  lemma HookCallKeeps(s: Sched, step: Step)
    requires Valid(s) && s.current != 0 && step.Hook?
    ensures Valid(Call(s, step))
  {
    if step.emitter in s.processes {
      HookKeeps(s, step.emitter, Listener(s.current, step.mask, step.handler));
    }
  }

  lemma NewThreadCallKeeps(s: Sched, step: Step)
    requires Valid(s) && s.current != 0 && step.NewThreadCall?
    ensures Valid(Call(s, step))
  {
    assert Member(s, s.current);
    CreateThreadKeeps(s, s.threads[s.current].process, step.eip, step.esp);
  }

  lemma TickKeeps(s: Sched)
    requires Valid(s)
    ensures Valid(Perform(s, Tick))
  {
    LaterIsValid(s);
    ContextSwitchKeeps(Later(s));
  }

  lemma NewProcessKeeps(s: Sched, step: Step)
    requires Valid(s) && step.NewProcess?
    ensures Valid(Perform(s, step))
  {
    if step.p !in s.processes {
      CreateProcessKeeps(s, step.p, step.eip, step.esp);
    }
  }

  /** Whatever happens, every live thread stays in exactly one place. */
  lemma PerformKeeps(s: Sched, step: Step)
    requires Valid(s)
    ensures Valid(Perform(s, step))
  {
    if step.Tick? {
      TickKeeps(s);
    } else if step.Switch? {
      ContextSwitchKeeps(s);
    } else if step.Signal? {
      EmitKeeps(s, -1, step.p, step.id, step.data);
    } else if step.NewProcess? {
      NewProcessKeeps(s, step);
    } else if s.current != 0 {
      CallKeeps(s, step);
    }
  }

  function Run(s: Sched, steps: seq<Step>): (r: Sched)
    requires Valid(s)
    ensures Valid(r)
    decreases |steps|
  {
    if steps == [] then s
    else
      PerformKeeps(s, steps[0]);
      Run(Perform(s, steps[0]), steps[1..])
  }

  /** In every run from a valid state, each live thread runs or stands in the queue: in one of the two, and there once. */
  lemma ExactlyOnePlace(s: Sched, steps: seq<Step>, t: nat)
    requires Valid(s) && t in Run(s, steps).threads
    ensures var r := Run(s, steps);
            && (t == r.current <==> t !in r.queue)
            && forall i, j {:trigger r.queue[i], r.queue[j]} :: 0 <= i < |r.queue| && 0 <= j < |r.queue| && r.queue[i] == t && r.queue[j] == t ==> i == j
  {
    var r := Run(s, steps);
    if t in r.queue {
      var k :| 0 <= k < |r.queue| && r.queue[k] == t;
    }
  }
}
