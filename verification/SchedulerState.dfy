/**
 The scheduler as a state and what each of its entry points makes of it: threads, the
 execution queue, the queue of events, and the thread that runs.
 */
module SchedulerState {
  import Bits

  /** A saved register file; `rest` stands for every register without a name here. */
  datatype Registers = Registers(eip: nat, esp: int, rest: nat)

  datatype Policy = Normal | EventOnly | Busy

  datatype Thread = Thread(process: nat, policy: Policy, suspended: bool, parked: bool, processing: bool, resume: nat,
                           registers: Registers, backup: Registers)

  datatype Event = Event(thread: nat, id: nat, data: nat, handler: nat)

  datatype Listener = Listener(thread: nat, mask: nat, handler: nat)

  datatype Process = Process(suspended: bool, hooked: seq<Listener>, members: seq<nat>)

  /** `current` is the running thread, 0 if none runs; thread ids start at 1 and are never used twice. */
  datatype Sched = Sched(threads: map<nat, Thread>, processes: map<nat, Process>, queue: seq<nat>, events: seq<Event>,
                         current: nat, elapsed: nat, nextId: nat)

  const TIME_SLICE: nat := 5
  /** The process whose events tell of processes that start (1) and end (2). */
  const EVENT_PROCESS: nat := 1

  // ---------------------------------------------------------------------------- the invariant

  ghost predicate Distinct(q: seq<nat>) {
    forall i, j {:trigger q[i], q[j]} :: 0 <= i < j < |q| ==> q[i] != q[j]
  }

  predicate Member(s: Sched, t: nat) {
    && t in s.threads && s.threads[t].process in s.processes && t in s.processes[s.threads[t].process].members
    && 0 < t < s.nextId
  }

  ghost predicate MembersOf(s: Sched, p: nat)
    requires p in s.processes
  {
    && Distinct(s.processes[p].members)
    && forall t {:trigger t in s.processes[p].members} :: t in s.processes[p].members ==> t in s.threads && s.threads[t].process == p
  }

  /** Valid() but for the threads of process p, which is being torn down; -1 for none. */
  ghost predicate ValidBut(s: Sched, p: int) {
    && (forall t {:trigger t in s.threads} :: t in s.threads ==> Member(s, t))
    && (forall q {:trigger q in s.processes} :: q in s.processes && q != p ==> MembersOf(s, q))
    && Distinct(s.queue)
    && Queued(s) && (forall k {:trigger s.queue[k]} :: 0 <= k < |s.queue| ==> s.queue[k] != s.current)
    && (s.current != 0 ==> s.current in s.threads)
    && (forall t {:trigger t in s.threads} :: t in s.threads ==> t == s.current || t in s.queue || s.threads[t].process == p)
    && EventsLive(s)
    && EVENT_PROCESS in s.processes && s.processes[EVENT_PROCESS].members == [] && s.nextId > 0
  }

  /** Every live thread runs or stands in the queue, once, and nothing else does. */
  ghost predicate Valid(s: Sched) {
    ValidBut(s, -1)
  }

  predicate Queued(s: Sched) {
    forall k {:trigger s.queue[k]} :: 0 <= k < |s.queue| ==> s.queue[k] in s.threads && s.threads[s.queue[k]].process in s.processes
  }

  predicate EventsLive(s: Sched) {
    forall k {:trigger s.events[k]} :: 0 <= k < |s.events| ==> s.events[k].thread in s.threads
  }

  // ---------------------------------------------------------------------------- context switch

  function SetThread(s: Sched, t: nat, th: Thread): Sched {
    s.(threads := s.threads[t := th])
  }

  /** The running thread goes to the end of the queue. */
  function Reschedule(s: Sched): Sched {
    if s.current == 0 then s else s.(queue := s.queue + [s.current], current := 0)
  }

  /** The thread is made to enter the handler of an event; what it was doing is set aside. */
  function Delivered(th: Thread, e: Event): Thread {
    th.(parked := false, backup := th.registers, processing := true,
        registers := th.registers.(eip := e.handler, esp := th.registers.esp - 12))
  }

  function Drop<T>(q: seq<T>, i: nat): seq<T>
    requires i < |q|
  {
    q[..i] + q[i + 1..]
  }

  /** The pass over the event queue, from event i on. */
  function DeliverFrom(s: Sched, i: nat): (r: Sched)
    requires i <= |s.events| && EventsLive(s)
    ensures EventsLive(r) && r == s.(threads := r.threads, events := r.events) && r.threads.Keys == s.threads.Keys
    ensures forall t {:trigger r.threads[t]} :: t in s.threads ==> r.threads[t].process == s.threads[t].process
    decreases |s.events| - i
  {
    if i == |s.events| then s
    else
      var e := s.events[i];
      var th := s.threads[e.thread];
      if th.processing then DeliverFrom(s, i + 1)
      else if th.policy == Busy then DeliverFrom(s.(events := Drop(s.events, i)), i)
      else DeliverFrom(SetThread(s, e.thread, Delivered(th, e)).(events := Drop(s.events, i)), i)
  }

  predicate Eligible(s: Sched, t: nat)
    requires t in s.threads && s.threads[t].process in s.processes
  {
    var th := s.threads[t];
    && !(th.policy == EventOnly && !th.processing)
    && !s.processes[th.process].suspended
    && !th.parked
    && (th.suspended ==> th.resume != 0 && th.resume <= s.elapsed)
  }

  /** A suspension that has run out ends. */
  function Resumed(th: Thread): Thread {
    if th.suspended then th.(suspended := false, resume := 0) else th
  }

  /** The first thread, from position i of the queue on, that may run; the length of the queue if none may. */
  function FirstEligible(s: Sched, i: nat): (k: nat)
    requires i <= |s.queue| && Queued(s)
    ensures i <= k <= |s.queue|
    ensures forall j :: i <= j < k ==> !Eligible(s, s.queue[j])
    ensures k < |s.queue| ==> Eligible(s, s.queue[k])
    decreases |s.queue| - i
  {
    if i == |s.queue| || Eligible(s, s.queue[i]) then i else FirstEligible(s, i + 1)
  }

  /** The first thread that may run is taken, those before it go to the end; if none may, nothing changes. */
  function Dispatch(s: Sched): Sched
    requires Queued(s)
  {
    var k := FirstEligible(s, 0);
    if k == |s.queue| then s
    else
      var t := s.queue[k];
      SetThread(s, t, Resumed(s.threads[t])).(queue := s.queue[k + 1..] + s.queue[..k], current := t)
  }

  // ---------------------------------------------------------------------------- events

  /** The events that an emission by process p queues, from listener k on. */
  function Emitted(s: Sched, p: nat, id: nat, data: nat, k: nat): seq<Event>
    requires p in s.processes && k <= |s.processes[p].hooked|
    decreases |s.processes[p].hooked| - k
  {
    if k == |s.processes[p].hooked| then []
    else
      var l := s.processes[p].hooked[k];
      (if Bits.And(l.mask, id) == 0 || l.thread !in s.threads || s.threads[l.thread].policy == Busy then []
       else [Event(l.thread, id, data, l.handler)]) + Emitted(s, p, id, data, k + 1)
  }

  function Emit(s: Sched, p: nat, id: nat, data: nat): Sched {
    if p in s.processes then s.(events := s.events + Emitted(s, p, id, data, 0)) else s
  }

  // ---------------------------------------------------------------------------- threads and processes

  function Without(q: seq<nat>, t: nat): (r: seq<nat>) {
    if q == [] then [] else (if q[0] == t then [] else [q[0]]) + Without(q[1..], t)
  }

  function EventsWithout(q: seq<Event>, t: nat): seq<Event> {
    if q == [] then [] else (if q[0].thread == t then [] else [q[0]]) + EventsWithout(q[1..], t)
  }

  function LeaveProcess(s: Sched, t: nat): Sched
    requires t in s.threads
  {
    var p := s.threads[t].process;
    if p in s.processes then s.(processes := s.processes[p := s.processes[p].(members := Without(s.processes[p].members, t))]) else s
  }

  function KillThread(s: Sched, t: nat, leave: bool): Sched
    requires t in s.threads
  {
    var s1 := if leave then LeaveProcess(s, t) else s;
    s1.(events := EventsWithout(s1.events, t), queue := Without(s1.queue, t), threads := s1.threads - {t})
  }

  /** The first n threads of a list are gone. */
  function KillThreads(s: Sched, ts: seq<nat>, n: nat): Sched
    requires n <= |ts|
  {
    if n == 0 then s
    else
      var s1 := KillThreads(s, ts, n - 1);
      if ts[n - 1] in s1.threads then KillThread(s1, ts[n - 1], false) else s1
  }

  function Halted(s: Sched, p: nat): Sched {
    if s.current != 0 && s.current in s.threads && s.threads[s.current].process == p then s.(current := 0) else s
  }

  function KillProcess(s: Sched, p: nat): Sched
    requires p in s.processes
  {
    var ts := s.processes[p].members;
    var s1 := Emit(KillThreads(Halted(s, p), ts, |ts|), EVENT_PROCESS, 2, p);
    s1.(processes := s1.processes - {p})
  }

  function NewThread(p: nat, eip: nat, esp: int): Thread {
    Thread(p, Normal, false, false, false, 0, Registers(eip, esp, 0), Registers(0, 0, 0))
  }

  function CreateThread(s: Sched, p: nat, eip: nat, esp: int): Sched
    requires p in s.processes
  {
    s.(threads := s.threads[s.nextId := NewThread(p, eip, esp)],
       processes := s.processes[p := s.processes[p].(members := s.processes[p].members + [s.nextId])],
       queue := s.queue + [s.nextId], nextId := s.nextId + 1)
  }

  function CreateProcess(s: Sched, p: nat, eip: nat, esp: int): Sched {
    Emit(CreateThread(s.(processes := s.processes[p := Process(false, [], [])]), p, eip, esp), EVENT_PROCESS, 1, p)
  }

  // ---------------------------------------------------------------------------- steps

  /** Everything that happens to the scheduler; calls are made by the running thread. */
  datatype Step =
    | Tick
    | Switch
    | Execute(registers: Registers)
    | Suspend(ms: nat)
    | EndEvent
    | Hook(emitter: nat, mask: nat, handler: nat)
    | Signal(p: nat, id: nat, data: nat)
    | SetPolicy(policy: nat, t: nat)
    | NewThreadCall(eip: nat, esp: int)
    | NewProcess(p: nat, eip: nat, esp: int)
    | KillThreadCall(t: nat)
    | Park(t: nat)
    | Unpark(t: nat)
    | Yield
    | Exit

  predicate IsSwitch(step: Step) {
    step.Tick? || step.Switch?
  }

  function PolicyOf(n: nat): Policy {
    if n == 0 then Normal else if n == 1 then EventOnly else Busy
  }

  function ContextSwitch(s: Sched): Sched
    requires Valid(s)
  {
    Dispatch(DeliverFrom(Reschedule(s), 0))
  }

  /** The running thread is put at the end of the queue, and none runs. */
  function Yielded(s: Sched): Sched {
    s.(queue := s.queue + [s.current], current := 0)
  }

  /** Calls that the running thread makes. */
  function Call(s: Sched, step: Step): Sched
    requires Valid(s) && s.current != 0
  {
    var t0 := s.current;
    var th := s.threads[t0];
    match step
    case Execute(r) => SetThread(s, t0, th.(registers := r))
    case Suspend(ms) => Yielded(SetThread(s, t0, th.(suspended := true, resume := if ms == 0 then 1 else s.elapsed + ms)))
    case EndEvent =>
      if !th.processing then s else Yielded(SetThread(s, t0, th.(processing := false, registers := th.backup)))
    case Hook(p, mask, handler) =>
      if p !in s.processes then s
      else s.(processes := s.processes[p := s.processes[p].(hooked := s.processes[p].hooked + [Listener(t0, mask, handler)])])
    case SetPolicy(n, t) =>
      if n > 2 then s
      else if t != 0 && t != t0 then
        if t !in s.threads then s else SetThread(s, t, s.threads[t].(policy := PolicyOf(n)))
      else
        var s1 := SetThread(s, t0, th.(policy := PolicyOf(n)));
        if n == 1 && !th.processing then Yielded(s1) else s1
    case NewThreadCall(eip, esp) => CreateThread(s, th.process, eip, esp)
    case KillThreadCall(t) =>
      if t == 0 || t == t0 then KillThread(s, t0, true).(current := 0)
      else if t !in s.threads then s else KillThread(s, t, true)
    case Park(t) =>
      if t == 0 || t == t0 then Yielded(SetThread(s, t0, th.(parked := true)))
      else if t !in s.threads then s else SetThread(s, t, s.threads[t].(parked := true))
    case Unpark(t) => if t !in s.threads then s else SetThread(s, t, s.threads[t].(parked := false))
    case Yield => Yielded(s)
    case Exit => KillProcess(s, th.process)
    case _ => s
  }

  /** One time slice has passed. */
  function Later(s: Sched): Sched {
    s.(elapsed := s.elapsed + TIME_SLICE)
  }

  lemma LaterIsValid(s: Sched)
    requires Valid(s)
    ensures Valid(Later(s))
  {
    var r := Later(s);
    forall t | t in r.threads ensures Member(r, t) {
      assert Member(s, t);
    }
    forall q | q in r.processes ensures MembersOf(r, q) {
      assert MembersOf(s, q);
    }
  }

  function Perform(s: Sched, step: Step): Sched
    requires Valid(s)
  {
    match step
    case Tick =>
      LaterIsValid(s);
      ContextSwitch(Later(s))
    case Switch => ContextSwitch(s)
    case Signal(p, id, data) => Emit(s, p, id, data)
    case NewProcess(p, eip, esp) => if p in s.processes then s else CreateProcess(s, p, eip, esp)
    case _ => if s.current == 0 then s else Call(s, step)
  }
}
