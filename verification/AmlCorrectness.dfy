/**
 What the simulation says about whole runs: a method yields a value, or fails, on the four
 explicit stacks exactly when it does by the recursive meaning of its structured form.
 */
module AmlCorrectness {
  import opened AmlTypes
  import opened AmlMachine
  import opened AmlInvariant
  import opened AmlSyntax
  import opened AmlLayout
  import opened AmlSteps
  import opened AmlSimulation

  datatype Verdict = Yields(v: Value) | Fails(f: Fault)

  /** All that a finished run leaves behind: three empty stacks and one operand. */
  function Finished(v: Value): State {
    State(Empty, Empty, Empty, [Object(v)])
  }

  /** After n turns the evaluation of the method has come to its verdict. */
  ghost predicate MachineHalts(p: Program, name: seq<byte>, inv: Invocation, n: nat, verdict: Verdict)
    requires ProgramOk(p) && name in p.defs
  {
    Run(LaiTurn(Compile(p)), Start(Compile(p).nodes[name].code, inv), n) ==
    match verdict
    case Yields(v) => Next(Finished(v))
    case Fails(f) => Stop(f)
  }

  /** What evaluation by recursion over the structure comes to within the fuel. */
  function Meaning(p: Program, name: seq<byte>, inv: Invocation, fuel: nat): Option<Verdict>
    requires ProgramOk(p) && name in p.defs
  {
    match ExecStmts(p, fuel, true, InMethod, p.defs[name].body, inv)
    case Returned(v, _) => Some(Yields(v))
    case Completed(_) => Some(Yields(Integer(0)))
    case StmtFault(f) => Some(Fails(f))
    case _ => None
  }

  /** The machine follows the meaning, verdict by verdict, and is still at work where fuel runs out. */
  lemma MachineFollows(p: Program, name: seq<byte>, inv: Invocation, fuel: nat) returns (n: nat)
    requires ProgramOk(p) && name in p.defs
    ensures match Meaning(p, name, inv, fuel)
            case Some(verdict) => MachineHalts(p, name, inv, n, verdict)
            case None => n >= fuel && Pending(LaiTurn(Compile(p)), Start(Compile(p).nodes[name].code, inv), n)
  {
    var ms := Compile(p);
    var turn := LaiTurn(ms);
    LaiTurnPerforms(ms);
    var base := State(Empty, Empty, Empty, []);
    var code := ms.nodes[name].code;
    assert Start(code, inv) == Entered(base, Context(code, inv), true);
    n := SimBody(p, ms, turn, fuel, name, base, inv, true);
    assert forall v :: PushResult(base, true, v) == Finished(v);
  }

  lemma {:induction false} Settled(turn: Turner, s: State, n: nat, more: nat)
    requires var o := Run(turn, s, n); o.Next? ==> o.s.stack.Empty?
    ensures Run(turn, s, n + more) == Run(turn, s, n)
    decreases n
  {
    if n > 0 && s.stack.Entry? && turn(s).Next? {
      Settled(turn, turn(s).s, n - 1, more);
    }
  }

  lemma VerdictStays(p: Program, name: seq<byte>, inv: Invocation, n: nat, verdict: Verdict, m: nat)
    requires ProgramOk(p) && name in p.defs && MachineHalts(p, name, inv, n, verdict) && m >= n
    ensures MachineHalts(p, name, inv, m, verdict)
  {
    Settled(LaiTurn(Compile(p)), Start(Compile(p).nodes[name].code, inv), n, m - n);
  }

  /** There is at most one verdict. */
  lemma OneVerdict(p: Program, name: seq<byte>, inv: Invocation, n: nat, v: Verdict, m: nat, w: Verdict)
    requires ProgramOk(p) && name in p.defs && MachineHalts(p, name, inv, n, v) && MachineHalts(p, name, inv, m, w)
    ensures v == w
  {
    VerdictStays(p, name, inv, n, v, n + m);
    VerdictStays(p, name, inv, m, w, n + m);
  }

  /**
   For every method of every program and every state of its cells, the interpreter run on
   the encoding comes to a verdict if and only if the recursive evaluation does, and it is
   the same one: the value with all stacks empty and one operand left, or the fault.
   */
  lemma MachineIffMeaning(p: Program, name: seq<byte>, inv: Invocation, verdict: Verdict)
    requires ProgramOk(p) && name in p.defs
    ensures (exists n :: MachineHalts(p, name, inv, n, verdict)) <==> (exists fuel :: Meaning(p, name, inv, fuel) == Some(verdict))
  {
    if n :| MachineHalts(p, name, inv, n, verdict) {
      var m := MachineFollows(p, name, inv, n + 1);
      if m >= n {
        VerdictStays(p, name, inv, n, verdict, m);
      }
      OneVerdict(p, name, inv, n, verdict, m, Meaning(p, name, inv, n + 1).value);
    }
    if fuel :| Meaning(p, name, inv, fuel) == Some(verdict) {
      var m := MachineFollows(p, name, inv, fuel);
    }
  }

  /** Fuel only bounds how deep the evaluation looks: any two verdicts of the meaning agree. */
  lemma MeaningIsOne(p: Program, name: seq<byte>, inv: Invocation, fuel1: nat, fuel2: nat)
    requires ProgramOk(p) && name in p.defs
    requires Meaning(p, name, inv, fuel1).Some? && Meaning(p, name, inv, fuel2).Some?
    ensures Meaning(p, name, inv, fuel1) == Meaning(p, name, inv, fuel2)
  {
    var n := MachineFollows(p, name, inv, fuel1);
    var m := MachineFollows(p, name, inv, fuel2);
    OneVerdict(p, name, inv, n, Meaning(p, name, inv, fuel1).value, m, Meaning(p, name, inv, fuel2).value);
  }

  // ------------------------------------------------------------------------ Continue

  /** The n innermost scopes are conditions. */
  predicate Conditions(s: State, n: nat)
    decreases n
  {
    n == 0 || (s.stack.Entry? && s.blk.Entry? && Top(s.stack).CondItem? && Conditions(PopScope(s), n - 1))
  }

  /** The state with the n innermost conditions and their blocks dropped. */
  function Outside(s: State, n: nat): State
    requires Conditions(s, n)
    decreases n
  {
    if n == 0 then s else Outside(PopScope(s), n - 1)
  }

  ghost predicate LoopAround(s: State, t: State) {
    exists n: nat :: Conditions(s, n) && Outside(s, n) == t && t.stack.Entry? && Top(t.stack).LoopItem?
  }

  /** Continue leads to t exactly if t is the innermost loop with nothing but conditions inside it left. */
  lemma {:induction false} LeavesConditions(s: State, t: State)
    ensures UnwindToLoop(s) == Next(t) <==> LoopAround(s, t)
    decreases s.stack
  {
    if s.stack.Entry? && Top(s.stack).LoopItem? {
      assert Conditions(s, 0) && Outside(s, 0) == s;
    } else if s.stack.Entry? && Top(s.stack).CondItem? && s.blk.Entry? {
      LeavesConditions(PopScope(s), t);
      if LoopAround(PopScope(s), t) {
        var n: nat :| Conditions(PopScope(s), n) && Outside(PopScope(s), n) == t;
        assert Conditions(s, n + 1) && Outside(s, n + 1) == t;
      }
      if LoopAround(s, t) {
        var n: nat :| Conditions(s, n) && Outside(s, n) == t;
        assert Conditions(PopScope(s), n - 1) && Outside(PopScope(s), n - 1) == t;
      }
    }
  }

  /** The loop on top is back at its predicate. */
  function NextRound(t: State): State
    requires t.stack.Entry? && Top(t.stack).LoopItem? && t.blk.Entry?
  {
    CommitPc(SetItem(t, LoopItem(Top(t.stack).frame, false, Top(t.stack).pred)), Top(t.stack).pred)
  }

  ghost predicate StartsNextRound(t: State, o: Outcome) {
    t.stack.Entry? && Top(t.stack).LoopItem? && t.blk.Entry? && o == Next(NextRound(t))
  }

  /**
   Continue leaves the conditions around it and nothing else; without a loop around them
   the run stops. Directly in a loop the state is the same again, so the loop neither goes back to
   its predicate nor ends. Inside conditions of a round under way the next one starts if and
   only if the loop's block, where it stands behind those conditions, is at its end.
   */
  lemma ContinueSticks(ms: Platform, s: State, t: State, n: nat)
    requires Expects(s, ExecMode) && ByteAt(Code(s), Pc(s), CONTINUE_OP)
    ensures Process(ms, s) == Next(t) <==> LoopAround(s, t)
    ensures LoopAround(s, t) && Top(t.stack).iterating ==> (StartsNextRound(t, Run(LaiTurn(ms), s, 2)) <==> t.blk.Entry? && AtEnd(t))
    ensures LoopAround(s, s) <==> Top(s.stack).LoopItem?
    ensures Top(s.stack).LoopItem? ==> Run(LaiTurn(ms), s, n) == Next(s)
  {
    LaiTurnPerforms(ms);
    StepContinue(LaiTurn(ms), ms, s);
    assert LaiTurn(ms)(s) == Process(ms, s);
    LeavesConditions(s, t);
    LeavesConditions(s, s);
    if Top(s.stack).LoopItem? {
      NoProgress(LaiTurn(ms), s, n);
    }
    if LoopAround(s, t) && Top(t.stack).iterating {
      TwoTurns(LaiTurn(ms), s, t);
      OnlyTheEndStartsOver(ms, t);
    }
  }

  lemma TwoTurns(turn: Turner, s: State, t: State)
    requires s.stack.Entry? && turn(s) == Next(t) && t.stack.Entry?
    ensures Run(turn, s, 2) == turn(t)
  {
    assert Run(turn, s, 2) == Run(turn, t, 1);
    if turn(t).Next? {
      assert Run(turn, turn(t).s, 0) == Next(turn(t).s);
    }
  }

  /** A round that is not at its end parses on, and no statement puts the loop back to its predicate. */
  lemma OnlyTheEndStartsOver(ms: Platform, t: State)
    requires t.stack.Entry? && Top(t.stack).LoopItem? && Top(t.stack).iterating && t.ctx.Entry?
    ensures StartsNextRound(t, Process(ms, t)) <==> t.blk.Entry? && AtEnd(t)
  {
    if StartsNextRound(t, Process(ms, t)) && !AtEnd(t) {
      TurnParses(ms, t, ExecMode);
      ParseKeepsItem(ms, t);
    }
  }

  lemma ParseKeepsItem(ms: Platform, t: State)
    requires Ready(t) && Top(t.stack).LoopItem? && Parse(ms, t, ExecMode).Next?
    ensures var stack := Parse(ms, t, ExecMode).s.stack; stack == t.stack || stack == Pop(t.stack) || (stack.Entry? && Pop(stack) == t.stack)
  {
  }

  /** A method that is called while operands of its caller are pending has to end with Return. */
  lemma ImplicitReturn(ms: Platform, s: State)
    requires Ready(s) && AtEnd(s) && Top(s.stack).MethodItem?
    ensures Process(ms, s) == Stop(Panic) <==> s.ops != []
    ensures s.ops == [] ==> Process(ms, s) == Next(PushResult(PopMethod(s), Top(s.stack).wantResult, Integer(0)))
  {
    LaiTurnPerforms(ms);
    StepImplicitReturn(LaiTurn(ms), ms, s);
  }
}
