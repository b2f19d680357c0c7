/**
 The explicit-stack machine, run on the encoding of structured AML, does what the recursive
 meaning says: same value, same cells, same fault, and no end where there is none.
 */
module AmlSimulation {
  import opened AmlTypes
  import opened AmlMachine
  import opened AmlInvariant
  import opened AmlSyntax
  import opened AmlLayout
  import opened AmlSteps

  // ------------------------------------------------------------------------- runs

  lemma {:induction false} Chain(turn: Turner, s: State, k: nat, s1: State, n: nat)
    requires Run(turn, s, k) == Next(s1)
    ensures Run(turn, s, k + n) == Run(turn, s1, n)
    decreases k
  {
    if k > 0 && s.stack.Entry? {
      Chain(turn, turn(s).s, k - 1, s1, n);
    }
  }

  lemma One(turn: Turner, s: State)
    requires s.stack.Entry?
    ensures Run(turn, s, 1) == turn(s)
  {
  }

  /** k turns to s1, then one more. */
  lemma Then(turn: Turner, s: State, k: nat, s1: State)
    requires Run(turn, s, k) == Next(s1) && s1.stack.Entry?
    ensures Run(turn, s, k + 1) == turn(s1)
  {
    Chain(turn, s, k, s1, 1);
    One(turn, s1);
  }

  /** After n turns the interpreter is still at work. */
  ghost predicate Pending(turn: Turner, s: State, n: nat) {
    Run(turn, s, n).Next? && Run(turn, s, n).s.stack.Entry?
  }

  lemma {:induction false} NoProgress(turn: Turner, s: State, n: nat)
    requires s.stack.Entry? && turn(s) == Next(s)
    ensures Run(turn, s, n) == Next(s)
    decreases n
  {
    if n > 0 {
      NoProgress(turn, s, n - 1);
    }
  }

  /** The top block has moved on by n bytes and the innermost cells are inv. */
  function Advance(s: State, n: nat, inv: Invocation): State
    requires Ready(s)
  {
    SetInvocation(CommitPc(s, Pc(s) + n), inv)
  }

  lemma SetSelf(s: State)
    requires s.ctx.Entry?
    ensures SetInvocation(s, Cells(s)) == s
  {
    assert Push(Pop(s.ctx), Top(s.ctx)) == s.ctx;
  }

  lemma Still(s: State)
    requires Ready(s)
    ensures Advance(s, 0, Cells(s)) == s
  {
    SetSelf(s);
    assert Push(Pop(s.blk), Top(s.blk)) == s.blk;
  }

  /** What n turns from s do, given the result of a term. */
  ghost predicate ExprRun(turn: Turner, s: State, n: nat, fuel: nat, len: nat, want: bool, r: ExprResult)
    requires Ready(s)
  {
    match r
    case Val(v, inv) => Run(turn, s, n) == Next(PushResult(Advance(s, len, inv), want, v))
    case ExprFault(f) => Run(turn, s, n) == Stop(f)
    case ExprTimeout => n >= fuel && Pending(turn, s, n)
  }

  ghost predicate ExprsRun(turn: Turner, s: State, n: nat, fuel: nat, len: nat, r: ExprsResult)
    requires Ready(s)
  {
    match r
    case Vals(operands, inv) => Run(turn, s, n) == Next(Advance(s, len, inv).(ops := s.ops + operands))
    case ExprsFault(f) => Run(turn, s, n) == Stop(f)
    case ExprsTimeout => n >= fuel && Pending(turn, s, n)
  }

  // ------------------------------------------------------- leaving loops and methods

  /** The top item executes statements, and the level says what Break and Continue find. */
  ghost predicate Stands(s: State, level: Level) {
    && Ready(s) && InAMethod(s)
    && match level
       case InMethod => Top(s.stack).MethodItem?
       case InLoop => Top(s.stack).LoopItem? && Top(s.stack).iterating
       case InCond(loop) =>
         Top(s.stack).CondItem? && Top(s.stack).branch && if loop then InALoop(s) else UnwindToLoop(s) == Stop(Panic)
  }

  /** Unwinding depends on the items and the depth of the stacks only. */
  lemma {:induction false} SameShape(s: State, t: State)
    requires s.stack == t.stack && Depth(s.blk) == Depth(t.blk) && Depth(s.ctx) == Depth(t.ctx)
    ensures InAMethod(s) == InAMethod(t) && InALoop(s) == InALoop(t)
    ensures (UnwindToLoop(s) == Stop(Panic)) == (UnwindToLoop(t) == Stop(Panic))
    decreases s.stack
  {
    if s.stack.Entry? && (Top(s.stack).LoopItem? || Top(s.stack).CondItem?) && s.blk.Entry? {
      SameShape(PopScope(s), PopScope(t));
    }
  }

  lemma {:induction false} SameMethod(s: State, t: State, v: Value)
    requires s.stack == t.stack && s.ops == t.ops && Depth(s.blk) == Depth(t.blk)
    requires s.ctx.Entry? && t.ctx.Entry? && Pop(s.ctx) == Pop(t.ctx)
    requires s.blk.Entry? ==> Pop(s.blk) == Pop(t.blk)
    requires InAMethod(s)
    ensures InAMethod(t) && LeaveMethod(s, v) == LeaveMethod(t, v)
    decreases s.stack
  {
    if !Top(s.stack).MethodItem? {
      SameMethod(PopScope(s), PopScope(t), v);
    }
  }

  lemma SameLoop(s: State, t: State)
    requires s.stack == t.stack && s.ops == t.ops && s.ctx == t.ctx
    requires s.blk.Entry? && t.blk.Entry? && Pop(s.blk) == Pop(t.blk)
    requires InALoop(s)
    ensures InALoop(t) && LeaveLoop(s) == LeaveLoop(t)
    ensures Top(s.stack).CondItem? ==> UnwindToLoop(s) == UnwindToLoop(t)
  {
    assert PopScope(s) == PopScope(t);
  }

  /** What n turns from s do, given the result of a statement of len bytes. */
  ghost predicate StmtRun(turn: Turner, s: State, n: nat, fuel: nat, len: nat, level: Level, r: StmtResult)
    requires Stands(s, level)
  {
    match r
    case Completed(inv) => Run(turn, s, n) == Next(Advance(s, len, inv))
    case Broke(inv) =>
      InsideLoop(level) && InALoop(SetInvocation(s, inv)) && Run(turn, s, n) == Next(LeaveLoop(SetInvocation(s, inv)))
    case Continued(inv) => level == InCond(true) && Run(turn, s, n) == UnwindToLoop(SetInvocation(s, inv))
    case Returned(v, _) => Run(turn, s, n) == Next(LeaveMethod(s, v))
    case StmtFault(f) => Run(turn, s, n) == Stop(f)
    case StmtTimeout => n >= fuel && Pending(turn, s, n)
  }

  lemma StandsStill(s: State, level: Level, n: nat, inv: Invocation)
    requires Stands(s, level)
    ensures Stands(Advance(s, n, inv), level) && Stands(SetInvocation(s, inv), level)
  {
    SameShape(s, Advance(s, n, inv));
    SameShape(s, SetInvocation(s, inv));
  }

  /** A statement result seen from the state before the last len1 bytes. */
  lemma Rebase(turn: Turner, s: State, k: nat, len1: nat, inv1: Invocation, n: nat, fuel: nat, len2: nat, level: Level, r: StmtResult)
    requires Stands(s, level) && Run(turn, s, k) == Next(Advance(s, len1, inv1))
    requires Stands(Advance(s, len1, inv1), level) && StmtRun(turn, Advance(s, len1, inv1), n, fuel, len2, level, r)
    ensures StmtRun(turn, s, k + n, fuel, len1 + len2, level, r)
  {
    var s1 := Advance(s, len1, inv1);
    Chain(turn, s, k, s1, n);
    match r
    case Broke(inv) => SameLoop(SetInvocation(s1, inv), SetInvocation(s, inv));
    case Continued(inv) =>
      StandsStill(s1, level, 0, inv);
      SameLoop(SetInvocation(s1, inv), SetInvocation(s, inv));
    case Returned(v, _) => SameMethod(s1, s, v);
    case _ =>
  }

  // ------------------------------------------------------------------------ terms

  ghost predicate Loaded(p: Program, ms: Platform, turn: Turner) {
    ProgramOk(p) && ms == Compile(p) && Performs(turn, ms)
  }

  lemma SimConstant(turn: Turner, ms: Platform, mode: Mode, opcode: byte, n: word, s: State)
    requires Performs(turn, ms) && Expects(s, mode) && mode != ReferenceMode
    requires Room(s, 1 + DataSize(opcode)) && ConstantAt(Code(s), Pc(s), opcode, n)
    ensures ExprRun(turn, s, 1, 0, 1 + DataSize(opcode), mode == ObjectMode, Val(Integer(n), Cells(s)))
  {
    StepConstant(turn, ms, mode, opcode, n, s);
    SetSelf(CommitPc(s, Pc(s) + (1 + DataSize(opcode))));
    One(turn, s);
  }

  lemma SimCell(turn: Turner, ms: Platform, e: Expr, s: State)
    requires e.LocalVar? || e.ArgVar?
    requires Performs(turn, ms) && Expects(s, ObjectMode) && ExprAt(Code(s), Pc(s), e)
    ensures ExprRun(turn, s, 1, 0, 1, true, Val(if e.LocalVar? then Cells(s).local[e.i] else Cells(s).arg[e.j], Cells(s)))
  {
    var opcode := if e.LocalVar? then LOCAL0_OP + e.i else ARG0_OP + e.j;
    StepCell(turn, ms, if e.LocalVar? then LocalName(e.i) else ArgName(e.j), opcode, s);
    SetSelf(CommitPc(s, Pc(s) + 1));
    One(turn, s);
  }

  lemma {:induction false} SimTargets(turn: Turner, ms: Platform, ts: Targets, s: State)
    requires Performs(turn, ms) && Room(s, CountTargets(ts)) && TargetsAt(Code(s), Pc(s), ts) && Top(s.stack).OpItem?
    requires var i := Top(s.stack);
             && IsOperator(i.opcode) && i.frame + Inputs(i.opcode) <= |s.ops|
             && |s.ops| + CountTargets(ts) == i.frame + Arity(i.opcode)
    ensures Run(turn, s, CountTargets(ts)) == Next(Advance(s, CountTargets(ts), Cells(s)).(ops := s.ops + TargetOperands(ts)))
    decreases ts
  {
    match ts
    case NoTargets =>
      Still(s);
      assert s.ops + TargetOperands(ts) == s.ops;
    case MoreTargets(first, rest) =>
      StepTarget(turn, ms, first, s);
      SetSelf(CommitPc(s, Pc(s) + 1));
      var s1 := PushOperand(Advance(s, 1, Cells(s)), TargetOperand(first));
      SimTargets(turn, ms, rest, s1);
      One(turn, s);
      Chain(turn, s, 1, s1, CountTargets(rest));
      assert s1.ops + TargetOperands(rest) == s.ops + TargetOperands(ts);
  }

  /** The top item still takes n operands in object mode. */
  ghost predicate TakesInputs(s: State, n: nat)
    requires s.stack.Entry?
  {
    match Top(s.stack)
    case OpItem(frame, opcode, _) => IsOperator(opcode) && frame <= |s.ops| && |s.ops| + n <= frame + Inputs(opcode)
    case InvokeItem(frame, argc, _) => argc <= 7 && frame + 1 <= |s.ops| && |s.ops| + n <= frame + 1 + argc
    case _ => false
  }

  /** The operands behind a first one that came out as r1. */
  function Joined(r1: ExprResult, r2: ExprsResult): ExprsResult {
    match r1
    case ExprTimeout => ExprsTimeout
    case ExprFault(f) => ExprsFault(f)
    case Val(v, _) =>
      match r2
      case Vals(operands, inv2) => Vals([Object(v)] + operands, inv2)
      case r => r
  }

  lemma ExprsThen(turn: Turner, s: State, n: nat, fuel: nat, len1: nat, r1: ExprResult, n1: nat, len2: nat, r2: ExprsResult)
    requires Ready(s) && ExprRun(turn, s, n, fuel, len1, true, r1)
    requires r1.Val? ==> ExprsRun(turn, PushOperand(Advance(s, len1, r1.inv), Object(r1.v)), n1, fuel, len2, r2)
    requires !r1.Val? ==> n1 == 0
    ensures ExprsRun(turn, s, n + n1, fuel, len1 + len2, Joined(r1, r2))
  {
    if r1.Val? {
      var s1 := PushOperand(Advance(s, len1, r1.inv), Object(r1.v));
      Chain(turn, s, n, s1, n1);
      if r2.Vals? {
        assert s1.ops + r2.operands == s.ops + ([Object(r1.v)] + r2.operands);
      }
    }
  }

  /** The state in which the operands behind a first one are parsed. */
  lemma InputsFollow(p: Program, first: Expr, rest: Exprs, s: State, r: ExprResult) returns (s1: State)
    requires ProgramOk(p) && ExprsOk(p, MoreExprs(first, rest)) && r.Val?
    requires Ready(s) && Room(s, Sizes(MoreExprs(first, rest))) && ExprsAt(Code(s), Pc(s), MoreExprs(first, rest)) && TakesInputs(s, 1 + Count(rest))
    ensures Ready(s1) && s1 == PushOperand(Advance(s, Size(first), r.inv), Object(r.v)) && s1.ops != [] && Cells(s1) == r.inv
    ensures Room(s1, Sizes(rest)) && ExprsAt(Code(s1), Pc(s1), rest) && TakesInputs(s1, Count(rest))
  {
    s1 := PushOperand(Advance(s, Size(first), r.inv), Object(r.v));
  }

  lemma NoInputs(turn: Turner, s: State, fuel: nat)
    requires Ready(s)
    ensures ExprsRun(turn, s, 0, fuel, 0, Vals([], Cells(s)))
  {
    Still(s);
    assert s.ops + [] == s.ops;
  }

  lemma ExprsMean(p: Program, fuel: nat, clear: bool, first: Expr, rest: Exprs, inv: Invocation, r1: ExprResult, r2: ExprsResult)
    requires ProgramOk(p) && ExprsOk(p, MoreExprs(first, rest)) && r1 == EvalExpr(p, fuel, clear, first, inv)
    requires r1.Val? ==> r2 == EvalExprs(p, fuel, false, rest, r1.inv)
    ensures EvalExprs(p, fuel, clear, MoreExprs(first, rest), inv) == Joined(r1, r2)
  {
  }

  lemma {:induction false} SimExprs(p: Program, ms: Platform, turn: Turner, fuel: nat, es: Exprs, s: State) returns (n: nat)
    requires Loaded(p, ms, turn) && ExprsOk(p, es) && Room(s, Sizes(es)) && ExprsAt(Code(s), Pc(s), es) && TakesInputs(s, Count(es))
    ensures ExprsRun(turn, s, n, fuel, Sizes(es), EvalExprs(p, fuel, s.ops == [], es, Cells(s)))
    decreases fuel, es, 0
  {
    match es
    case NoExprs =>
      NoInputs(turn, s, fuel);
      n := 0;
    case MoreExprs(first, rest) =>
      n := SimInput(p, ms, turn, fuel, first, rest, s);
      assert Sizes(es) == Size(first) + Sizes(rest);
  }

  lemma {:induction false} SimInput(p: Program, ms: Platform, turn: Turner, fuel: nat, first: Expr, rest: Exprs, s: State) returns (n: nat)
    requires Loaded(p, ms, turn) && ExprsOk(p, MoreExprs(first, rest)) && Room(s, Sizes(MoreExprs(first, rest)))
    requires ExprsAt(Code(s), Pc(s), MoreExprs(first, rest)) && TakesInputs(s, 1 + Count(rest))
    ensures ExprsRun(turn, s, n, fuel, Size(first) + Sizes(rest), EvalExprs(p, fuel, s.ops == [], MoreExprs(first, rest), Cells(s)))
    decreases fuel, MoreExprs(first, rest), -1
  {
    ExprStarts(p, Code(s), Pc(s), first);
    n := SimExpr(p, ms, turn, fuel, ObjectMode, first, s);
    n := SimOthers(p, ms, turn, fuel, first, rest, s, n, EvalExpr(p, fuel, s.ops == [], first, Cells(s)));
  }

  /** The operands behind the first, which has come out as r1 after n0 turns. */
  lemma {:induction false} SimOthers(p: Program, ms: Platform, turn: Turner, fuel: nat, first: Expr, rest: Exprs, s: State, n0: nat, r1: ExprResult) returns (n: nat)
    requires Loaded(p, ms, turn) && ExprsOk(p, MoreExprs(first, rest)) && Room(s, Sizes(MoreExprs(first, rest)))
    requires ExprsAt(Code(s), Pc(s), MoreExprs(first, rest)) && TakesInputs(s, 1 + Count(rest))
    requires r1 == EvalExpr(p, fuel, s.ops == [], first, Cells(s)) && ExprRun(turn, s, n0, fuel, Size(first), true, r1)
    ensures ExprsRun(turn, s, n, fuel, Size(first) + Sizes(rest), EvalExprs(p, fuel, s.ops == [], MoreExprs(first, rest), Cells(s)))
    decreases fuel, rest, 1
  {
    var r2 := if r1.Val? then EvalExprs(p, fuel, false, rest, r1.inv) else ExprsTimeout;
    ExprsMean(p, fuel, s.ops == [], first, rest, Cells(s), r1, r2);
    var n1 := 0;
    if r1.Val? {
      var s1 := InputsFollow(p, first, rest, s, r1);
      n1 := SimExprs(p, ms, turn, fuel, rest, s1);
    }
    ExprsThen(turn, s, n0, fuel, Size(first), r1, n1, Sizes(rest), r2);
    n := n0 + n1;
  }

  /** The tail of an operator, from the state in which its inputs are known. */
  lemma SimOutputs(turn: Turner, ms: Platform, s: State, want: bool, opcode: byte, s2: State, len: nat, operands: seq<Operand>, ts: Targets)
    requires Performs(turn, ms) && Ready(s) && Ready(s2) && IsOperator(opcode)
    requires |operands| == Inputs(opcode) && CountTargets(ts) == OperatorTargets(opcode)
    requires s2 == Advance(s, len, Cells(s2)).(stack := Push(s.stack, OpItem(|s.ops|, opcode, want)), ops := s.ops + operands)
    requires Room(s2, CountTargets(ts)) && TargetsAt(Code(s2), Pc(s2), ts)
    ensures Run(turn, s2, CountTargets(ts) + 1) ==
            match ms.reduce(opcode, operands + TargetOperands(ts), Cells(s2))
            case Stuck(f) => Stop(f)
            case Reduced(v, inv) => Next(PushResult(Advance(s, len + CountTargets(ts), inv), want, v))
  {
    var all := operands + TargetOperands(ts);
    SimTargets(turn, ms, ts, s2);
    assert s2.ops + TargetOperands(ts) == s.ops + all;
    var s3 := Advance(s2, CountTargets(ts), Cells(s2)).(ops := s.ops + all);
    StepReduce(turn, ms, s3, s.ops, all);
    Then(turn, s2, CountTargets(ts), s3);
  }

  lemma {:induction false} SimOperator(p: Program, ms: Platform, turn: Turner, fuel: nat, mode: Mode, e: Expr, s: State) returns (n: nat)
    requires Loaded(p, ms, turn) && ExprOk(p, e) && e.Operator? && mode != ReferenceMode
    requires Room(s, Size(e)) && ExprAt(Code(s), Pc(s), e) && Expects(s, mode)
    ensures ExprRun(turn, s, n, fuel, Size(e), mode == ObjectMode, EvalExpr(p, fuel, s.ops == [], e, Cells(s)))
    decreases fuel, e, 0
  {
    StepOperator(turn, ms, mode, e.opcode, s);
    SetSelf(CommitPc(s, Pc(s) + 1));
    var s1 := PushItem(Advance(s, 1, Cells(s)), OpItem(|s.ops|, e.opcode, mode == ObjectMode));
    One(turn, s);
    var n1 := SimExprs(p, ms, turn, fuel, e.inputs, s1);
    n := OperatorThen(turn, ms, s, fuel, mode == ObjectMode, e.opcode, s1, n1, Sizes(e.inputs),
                      EvalExprs(p, fuel, s.ops == [], e.inputs, Cells(s)), e.targets);
  }

  function Applied(ms: Platform, opcode: byte, ts: Targets, r: ExprsResult): ExprResult {
    match r
    case ExprsTimeout => ExprTimeout
    case ExprsFault(f) => ExprFault(f)
    case Vals(operands, inv) =>
      match ms.reduce(opcode, operands + TargetOperands(ts), inv)
      case Stuck(f) => ExprFault(f)
      case Reduced(v, inv2) => Val(v, inv2)
  }

  /** An operator once its inputs have come out as r, n1 turns after the operator itself. */
  lemma OperatorThen(turn: Turner, ms: Platform, s: State, fuel: nat, want: bool, opcode: byte, s1: State, n1: nat, len: nat, r: ExprsResult, ts: Targets) returns (n: nat)
    requires Performs(turn, ms) && Ready(s) && IsOperator(opcode) && CountTargets(ts) == OperatorTargets(opcode)
    requires Run(turn, s, 1) == Next(s1) && s1 == PushItem(Advance(s, 1, Cells(s)), OpItem(|s.ops|, opcode, want))
    requires ExprsRun(turn, s1, n1, fuel, len, r) && (r.Vals? ==> |r.operands| == Inputs(opcode))
    requires Room(s, 1 + len + CountTargets(ts)) && TargetsAt(Code(s), Pc(s) + 1 + len, ts)
    ensures ExprRun(turn, s, n, fuel, 1 + len + CountTargets(ts), want, Applied(ms, opcode, ts, r))
  {
    Chain(turn, s, 1, s1, n1);
    n := 1 + n1;
    if r.Vals? {
      var s2 := Advance(s1, len, r.inv).(ops := s.ops + r.operands);
      SimOutputs(turn, ms, s, want, opcode, s2, 1 + len, r.operands, ts);
      Chain(turn, s, n, s2, CountTargets(ts) + 1);
      n := n + CountTargets(ts) + 1;
    }
  }

  /** How the caller goes on after a body that started in Entered(base, ..). */
  lemma SimLeave(turn: Turner, ms: Platform, base: State, callee: Context, want: bool, n: nat, fuel: nat, r: StmtResult) returns (m: nat)
    requires Performs(turn, ms)
    requires var s := Entered(base, callee, want);
             Stands(s, InMethod) && StmtRun(turn, s, n, fuel, |callee.code|, InMethod, r)
    ensures var s := Entered(base, callee, want);
            match r
            case Returned(v, _) => Run(turn, s, m) == Next(PushResult(base, want, v))
            case Completed(_) =>
              Run(turn, s, m) == (if base.ops == [] then Next(PushResult(base, want, Integer(0))) else Stop(Panic))
            case StmtFault(f) => Run(turn, s, m) == Stop(f)
            case StmtTimeout => m >= fuel && Pending(turn, s, m)
            case _ => false
  {
    var s := Entered(base, callee, want);
    m := n;
    if r.Completed? {
      var t := Advance(s, |callee.code|, r.inv);
      assert PopMethod(t) == base;
      StepImplicitReturn(turn, ms, t);
      Then(turn, s, n, t);
      m := n + 1;
    } else if r.Returned? {
      assert UnwindToMethod(s) == Next(s);
      assert PopMethod(s) == base;
    }
  }

  /** The result a caller sees of a body that ran with or without operands pending. */
  function Answer(clear: bool, r: StmtResult, inv: Invocation): ExprResult {
    match r
    case Returned(v, _) => Val(v, inv)
    case Completed(_) => if clear then Val(Integer(0), inv) else ExprFault(Panic)
    case StmtFault(f) => ExprFault(f)
    case _ => ExprTimeout
  }

  /** A call once its arguments have come out as r, n1 turns after the name. */
  lemma {:induction false} CallThen(p: Program, ms: Platform, turn: Turner, fuel: nat, want: bool, e: Expr, s: State, s1: State, n1: nat, r: ExprsResult) returns (n: nat)
    requires Loaded(p, ms, turn) && e.Call? && ExprOk(p, e) && e.name in p.defs && Room(s, Size(e))
    requires Run(turn, s, 1) == Next(s1)
    requires s1 == PushOperand(PushItem(Advance(s, 4, Cells(s)), InvokeItem(|s.ops|, p.defs[e.name].argc, want)), MethodName(e.name))
    requires ExprsRun(turn, s1, n1, fuel, Sizes(e.args), r)
    requires r.Vals? ==> |r.operands| == Count(e.args) && forall i :: 0 <= i < |r.operands| ==> r.operands[i].Object?
    ensures ExprRun(turn, s, n, fuel, Size(e), want,
                    match r
                    case ExprsTimeout => ExprTimeout
                    case ExprsFault(f) => ExprFault(f)
                    case Vals(operands, inv1) =>
                      if fuel == 0 then ExprTimeout
                      else Answer(s.ops == [], ExecStmts(p, fuel - 1, s.ops == [], InMethod, p.defs[e.name].body, Arguments(operands)), inv1))
    decreases fuel, e, -1
  {
    Chain(turn, s, 1, s1, n1);
    n := 1 + n1;
    if r.Vals? {
      if fuel == 0 {
        return 0;
      }
      var base := EnterCall(p, ms, turn, fuel, want, e, s, s1, n1, r);
      var m := SimBody(p, ms, turn, fuel - 1, e.name, base, Arguments(r.operands), want);
      Chain(turn, s, n + 1, Entered(base, Context(ms.nodes[e.name].code, Arguments(r.operands)), want), m);
      n := n + 1 + m;
    }
  }

  /** The turn that enters the method once its arguments are there. */
  lemma EnterCall(p: Program, ms: Platform, turn: Turner, fuel: nat, want: bool, e: Expr, s: State, s1: State, n1: nat, r: ExprsResult) returns (base: State)
    requires Loaded(p, ms, turn) && e.Call? && ExprOk(p, e) && e.name in p.defs && Room(s, Size(e))
    requires Run(turn, s, 1) == Next(s1)
    requires s1 == PushOperand(PushItem(Advance(s, 4, Cells(s)), InvokeItem(|s.ops|, p.defs[e.name].argc, want)), MethodName(e.name))
    requires r.Vals? && ExprsRun(turn, s1, n1, fuel, Sizes(e.args), r)
    requires |r.operands| == Count(e.args) && forall i :: 0 <= i < |r.operands| ==> r.operands[i].Object?
    ensures base == Advance(s, Size(e), r.inv)
    ensures e.name in ms.nodes && Run(turn, s, 1 + n1 + 1) == Next(Entered(base, Context(ms.nodes[e.name].code, Arguments(r.operands)), want))
  {
    Chain(turn, s, 1, s1, n1);
    var s2 := Advance(s1, Sizes(e.args), r.inv).(ops := s1.ops + r.operands);
    StepEnter(turn, ms, s2, s.ops, e.name, r.operands);
    Then(turn, s, 1 + n1, s2);
    base := Advance(s, Size(e), r.inv);
    assert s2.(stack := Pop(s2.stack), ops := s.ops) == base;
  }

  lemma {:induction false} SimCall(p: Program, ms: Platform, turn: Turner, fuel: nat, mode: Mode, e: Expr, s: State) returns (n: nat)
    requires Loaded(p, ms, turn) && ExprOk(p, e) && e.Call? && mode != ReferenceMode
    requires Room(s, Size(e)) && ExprAt(Code(s), Pc(s), e) && Expects(s, mode)
    ensures ExprRun(turn, s, n, fuel, Size(e), mode == ObjectMode, EvalExpr(p, fuel, s.ops == [], e, Cells(s)))
    decreases fuel, e, 0
  {
    StepName(turn, ms, mode, e.name, s);
    SetSelf(CommitPc(s, Pc(s) + 4));
    One(turn, s);
    n := 1;
    if e.name in p.defs {
      var want := mode == ObjectMode;
      var s1 := PushOperand(PushItem(Advance(s, 4, Cells(s)), InvokeItem(|s.ops|, p.defs[e.name].argc, want)), MethodName(e.name));
      n := SimExprs(p, ms, turn, fuel, e.args, s1);
      n := CallThen(p, ms, turn, fuel, want, e, s, s1, n, EvalExprs(p, fuel, false, e.args, Cells(s)));
    }
  }

  /** The body of a called method, up to the return to its caller. */
  lemma {:induction false} SimBody(p: Program, ms: Platform, turn: Turner, fuel: nat, name: seq<byte>, base: State, inv: Invocation, want: bool) returns (m: nat)
    requires Loaded(p, ms, turn) && name in p.defs
    ensures var s := Entered(base, Context(ms.nodes[name].code, inv), want);
            match ExecStmts(p, fuel, base.ops == [], InMethod, p.defs[name].body, inv)
            case Returned(v, _) => Run(turn, s, m) == Next(PushResult(base, want, v))
            case Completed(_) =>
              Run(turn, s, m) == (if base.ops == [] then Next(PushResult(base, want, Integer(0))) else Stop(Panic))
            case StmtFault(f) => Run(turn, s, m) == Stop(f)
            case StmtTimeout => m >= fuel && Pending(turn, s, m)
            case _ => false
    decreases fuel, p.defs[name].body, 1
  {
    var body := p.defs[name].body;
    var callee := Context(ms.nodes[name].code, inv);
    var s := Entered(base, callee, want);
    AtSlice(callee.code, 0, callee.code);
    StmtsLie(p, callee.code, 0, body);
    assert UnwindToMethod(s) == Next(s);
    var n := SimStmts(p, ms, turn, fuel, InMethod, body, s);
    m := SimLeave(turn, ms, base, callee, want, n, fuel, ExecStmts(p, fuel, base.ops == [], InMethod, body, inv));
  }

  lemma {:induction false} SimExpr(p: Program, ms: Platform, turn: Turner, fuel: nat, mode: Mode, e: Expr, s: State) returns (n: nat)
    requires Loaded(p, ms, turn) && ExprOk(p, e) && mode != ReferenceMode
    requires mode == ExecMode ==> !e.LocalVar? && !e.ArgVar?
    requires Room(s, Size(e)) && ExprAt(Code(s), Pc(s), e) && Expects(s, mode)
    ensures ExprRun(turn, s, n, fuel, Size(e), mode == ObjectMode, EvalExpr(p, fuel, s.ops == [], e, Cells(s)))
    decreases fuel, e, 1
  {
    match e
    case Constant(opcode, k) => SimConstant(turn, ms, mode, opcode, k, s); n := 1;
    case LocalVar(_) => SimCell(turn, ms, e, s); n := 1;
    case ArgVar(_) => SimCell(turn, ms, e, s); n := 1;
    case Operator(_, _, _) => n := SimOperator(p, ms, turn, fuel, mode, e, s);
    case Call(_, _) => n := SimCall(p, ms, turn, fuel, mode, e, s);
  }

  // ------------------------------------------------------------------- statements

  /** No Else follows the next n bytes. */
  ghost predicate NoElse(s: State, n: nat)
    requires Ready(s)
  {
    var end := Pc(s) + n;
    end < Limit(s) <= |Code(s)| ==> Code(s)[end] != ELSE_OP
  }

  function Sequel(r1: StmtResult, r2: StmtResult): StmtResult {
    if r1.Completed? then r2 else r1
  }

  lemma StmtsThen(turn: Turner, s: State, n: nat, fuel: nat, len1: nat, level: Level, r1: StmtResult, n1: nat, len2: nat, r2: StmtResult)
    requires Stands(s, level) && StmtRun(turn, s, n, fuel, len1, level, r1)
    requires r1.Completed? ==>
               Stands(Advance(s, len1, r1.inv), level) && StmtRun(turn, Advance(s, len1, r1.inv), n1, fuel, len2, level, r2)
    requires !r1.Completed? ==> n1 == 0
    ensures StmtRun(turn, s, n + n1, fuel, len1 + len2, level, Sequel(r1, r2))
  {
    if r1.Completed? {
      Rebase(turn, s, n, len1, r1.inv, n1, fuel, len2, level, r2);
    }
  }

  lemma NoElseBetween(p: Program, first: Stmt, rest: Stmts, s: State)
    requires Ready(s) && Room(s, StmtsSize(MoreStmts(first, rest))) && StmtsAt(Code(s), Pc(s), MoreStmts(first, rest))
    requires StmtsOk(p, rest) && Pc(s) + StmtsSize(MoreStmts(first, rest)) == Limit(s)
    ensures NoElse(s, StmtSize(first))
  {
    if rest.MoreStmts? {
      StmtStarts(p, Code(s), Pc(s) + StmtSize(first), rest.first);
    }
  }

  lemma RestFollows(first: Stmt, rest: Stmts, level: Level, s: State, inv: Invocation) returns (s1: State)
    requires Stands(s, level) && Room(s, StmtsSize(MoreStmts(first, rest))) && StmtsAt(Code(s), Pc(s), MoreStmts(first, rest))
    requires Pc(s) + StmtsSize(MoreStmts(first, rest)) == Limit(s)
    ensures s1 == Advance(s, StmtSize(first), inv) && Stands(s1, level) && s1.ops == s.ops && Cells(s1) == inv
    ensures Room(s1, StmtsSize(rest)) && StmtsAt(Code(s1), Pc(s1), rest) && Pc(s1) + StmtsSize(rest) == Limit(s1)
  {
    StandsStill(s, level, StmtSize(first), inv);
    s1 := Advance(s, StmtSize(first), inv);
  }

  lemma StmtsMean(p: Program, fuel: nat, clear: bool, level: Level, first: Stmt, rest: Stmts, inv: Invocation, r1: StmtResult, r2: StmtResult)
    requires ProgramOk(p) && StmtsOk(p, MoreStmts(first, rest)) && r1 == ExecStmt(p, fuel, clear, level, first, inv)
    requires r1.Completed? ==> r2 == ExecStmts(p, fuel, clear, level, rest, r1.inv)
    ensures ExecStmts(p, fuel, clear, level, MoreStmts(first, rest), inv) == Sequel(r1, r2)
  {
  }

  lemma {:induction false} SimStmts(p: Program, ms: Platform, turn: Turner, fuel: nat, level: Level, ss: Stmts, s: State) returns (n: nat)
    requires Loaded(p, ms, turn) && StmtsOk(p, ss) && Stands(s, level)
    requires Room(s, StmtsSize(ss)) && StmtsAt(Code(s), Pc(s), ss) && Pc(s) + StmtsSize(ss) == Limit(s)
    ensures StmtRun(turn, s, n, fuel, StmtsSize(ss), level, ExecStmts(p, fuel, s.ops == [], level, ss, Cells(s)))
    decreases fuel, ss, 0
  {
    match ss
    case NoStmts =>
      n := 0;
      Still(s);
    case MoreStmts(first, rest) =>
      n := SimFirst(p, ms, turn, fuel, level, first, rest, s);
      assert StmtsSize(ss) == StmtSize(first) + StmtsSize(rest);
  }

  lemma {:induction false} SimFirst(p: Program, ms: Platform, turn: Turner, fuel: nat, level: Level, first: Stmt, rest: Stmts, s: State) returns (n: nat)
    requires Loaded(p, ms, turn) && StmtsOk(p, MoreStmts(first, rest)) && Stands(s, level)
    requires Room(s, StmtsSize(MoreStmts(first, rest))) && StmtsAt(Code(s), Pc(s), MoreStmts(first, rest))
    requires Pc(s) + StmtsSize(MoreStmts(first, rest)) == Limit(s)
    ensures StmtRun(turn, s, n, fuel, StmtSize(first) + StmtsSize(rest), level,
                    ExecStmts(p, fuel, s.ops == [], level, MoreStmts(first, rest), Cells(s)))
    decreases fuel, MoreStmts(first, rest), -1
  {
    NoElseBetween(p, first, rest, s);
    n := SimStmt(p, ms, turn, fuel, level, first, s);
    n := SimRest(p, ms, turn, fuel, level, first, rest, s, n, ExecStmt(p, fuel, s.ops == [], level, first, Cells(s)));
  }

  /** The statements behind the first, which has come to r1 after n0 turns. */
  lemma {:induction false} SimRest(p: Program, ms: Platform, turn: Turner, fuel: nat, level: Level, first: Stmt, rest: Stmts, s: State, n0: nat, r1: StmtResult)
    returns (n: nat)
    requires Loaded(p, ms, turn) && StmtsOk(p, MoreStmts(first, rest)) && Stands(s, level)
    requires Room(s, StmtsSize(MoreStmts(first, rest))) && StmtsAt(Code(s), Pc(s), MoreStmts(first, rest))
    requires Pc(s) + StmtsSize(MoreStmts(first, rest)) == Limit(s)
    requires r1 == ExecStmt(p, fuel, s.ops == [], level, first, Cells(s)) && StmtRun(turn, s, n0, fuel, StmtSize(first), level, r1)
    ensures StmtRun(turn, s, n, fuel, StmtSize(first) + StmtsSize(rest), level,
                    ExecStmts(p, fuel, s.ops == [], level, MoreStmts(first, rest), Cells(s)))
    decreases fuel, rest, 1
  {
    var r2 := if r1.Completed? then ExecStmts(p, fuel, s.ops == [], level, rest, r1.inv) else r1;
    StmtsMean(p, fuel, s.ops == [], level, first, rest, Cells(s), r1, r2);
    var n1 := 0;
    if r1.Completed? {
      var s1 := RestFollows(first, rest, level, s, r1.inv);
      n1 := SimStmts(p, ms, turn, fuel, level, rest, s1);
    }
    StmtsThen(turn, s, n0, fuel, StmtSize(first), level, r1, n1, StmtsSize(rest), r2);
    n := n0 + n1;
  }

  function ReturnOf(r: ExprResult): StmtResult {
    match r
    case ExprTimeout => StmtTimeout
    case ExprFault(f) => StmtFault(f)
    case Val(v, inv) => Returned(v, inv)
  }

  lemma ReturnThen(turn: Turner, ms: Platform, s: State, fuel: nat, level: Level, n1: nat, len: nat, r: ExprResult) returns (n: nat)
    requires Performs(turn, ms) && Stands(s, level) && Pc(s) + 1 + len <= Limit(s)
    requires var s1 := PushItem(Advance(s, 1, Cells(s)), ReturnItem(|s.ops|));
             Run(turn, s, 1) == Next(s1) && ExprRun(turn, s1, n1, fuel, len, true, r)
    ensures StmtRun(turn, s, n, fuel, 1 + len, level, ReturnOf(r))
  {
    var s1 := PushItem(Advance(s, 1, Cells(s)), ReturnItem(|s.ops|));
    Chain(turn, s, 1, s1, n1);
    n := 1 + n1;
    if r.Val? {
      var s2 := PushOperand(Advance(s1, len, r.inv), Object(r.v));
      var s3 := Advance(s, 1 + len, r.inv);
      SameMethod(s, s3, r.v);
      StepReturn(turn, ms, s2, s3, r.v);
      Then(turn, s, n, s2);
      n := n + 1;
    }
  }

  lemma {:induction false} SimReturn(p: Program, ms: Platform, turn: Turner, fuel: nat, level: Level, e: Expr, s: State) returns (n: nat)
    requires Loaded(p, ms, turn) && ExprOk(p, e) && Stands(s, level)
    requires Room(s, 1 + Size(e)) && StmtAt(Code(s), Pc(s), Return(e))
    ensures StmtRun(turn, s, n, fuel, 1 + Size(e), level, ReturnOf(EvalExpr(p, fuel, s.ops == [], e, Cells(s))))
    decreases fuel, e, 2
  {
    ExprStarts(p, Code(s), Pc(s) + 1, e);
    StepReturnOp(turn, ms, s);
    SetSelf(CommitPc(s, Pc(s) + 1));
    One(turn, s);
    var n1 := SimExpr(p, ms, turn, fuel, ObjectMode, e, PushItem(Advance(s, 1, Cells(s)), ReturnItem(|s.ops|)));
    n := ReturnThen(turn, ms, s, fuel, level, n1, Size(e), EvalExpr(p, fuel, s.ops == [], e, Cells(s)));
  }

  lemma {:induction false} SimDiscard(p: Program, ms: Platform, turn: Turner, fuel: nat, level: Level, e: Expr, s: State) returns (n: nat)
    requires Loaded(p, ms, turn) && ExprOk(p, e) && Stands(s, level)
    requires Room(s, Size(e)) && ExprAt(Code(s), Pc(s), e)
    ensures StmtRun(turn, s, n, fuel, Size(e), level, ExecStmt(p, fuel, s.ops == [], level, Discard(e), Cells(s)))
    decreases fuel, e, 2
  {
    ExprStarts(p, Code(s), Pc(s), e);
    if e.LocalVar? || e.ArgVar? {
      StepIdleCell(turn, ms, Code(s)[Pc(s)], s);
      One(turn, s);
      n := 1;
    } else {
      n := SimExpr(p, ms, turn, fuel, ExecMode, e, s);
    }
  }

  lemma {:induction false} SimStmt(p: Program, ms: Platform, turn: Turner, fuel: nat, level: Level, st: Stmt, s: State) returns (n: nat)
    requires Loaded(p, ms, turn) && StmtOk(p, st) && Stands(s, level)
    requires Room(s, StmtSize(st)) && StmtAt(Code(s), Pc(s), st) && NoElse(s, StmtSize(st))
    ensures StmtRun(turn, s, n, fuel, StmtSize(st), level, ExecStmt(p, fuel, s.ops == [], level, st, Cells(s)))
    decreases fuel, st, 2
  {
    StmtStarts(p, Code(s), Pc(s), st);
    match st
    case Discard(e) => n := SimDiscard(p, ms, turn, fuel, level, e, s);
    case Return(e) => n := SimReturn(p, ms, turn, fuel, level, e, s);
    case If(_, _, _) => n := SimCond(p, ms, turn, fuel, level, st, s);
    case IfElse(_, _, _, _, _) => n := SimCond(p, ms, turn, fuel, level, st, s);
    case While(_, _, _) => n := SimWhile(p, ms, turn, fuel, level, st, s);
    case _ => n := SimJump(p, ms, turn, fuel, level, st, s);
  }

  lemma SimJump(p: Program, ms: Platform, turn: Turner, fuel: nat, level: Level, st: Stmt, s: State) returns (n: nat)
    requires Loaded(p, ms, turn) && (st.NoOp? || st.Break? || st.Continue?) && Stands(s, level)
    requires Room(s, 1) && StmtAt(Code(s), Pc(s), st)
    ensures StmtRun(turn, s, n, fuel, 1, level, ExecStmt(p, fuel, s.ops == [], level, st, Cells(s)))
  {
    SetSelf(s);
    One(turn, s);
    n := 1;
    match st
    case NoOp =>
      StepNop(turn, ms, s);
      SetSelf(CommitPc(s, Pc(s) + 1));
    case Break => StepBreak(turn, ms, s);
    case Continue =>
      StepContinue(turn, ms, s);
      if level == InLoop {
        NoProgress(turn, s, fuel);
        n := fuel;
      }
  }

  /** The results of a loop, seen from its head. */
  ghost predicate LoopRun(turn: Turner, s: State, n: nat, fuel: nat, r: StmtResult)
    requires Ready(s) && InAMethod(PopScope(s))
  {
    match r
    case Completed(inv) => Run(turn, s, n) == Next(SetInvocation(PopScope(s), inv))
    case Returned(v, _) => Run(turn, s, n) == Next(LeaveMethod(PopScope(s), v))
    case StmtFault(f) => Run(turn, s, n) == Stop(f)
    case StmtTimeout => n >= fuel && Pending(turn, s, n)
    case _ => false
  }

  /** The head of a loop: its predicate is about to be parsed. */
  ghost predicate AtHeadOf(w: Stmt, s: State)
    requires w.While?
  {
    && Room(s, Size(w.cond) + StmtsSize(w.body)) && Top(s.stack) == LoopItem(|s.ops|, false, Pc(s))
    && ExprAt(Code(s), Pc(s), w.cond) && StmtsAt(Code(s), Pc(s) + Size(w.cond), w.body)
    && Pc(s) + Size(w.cond) + StmtsSize(w.body) == Limit(s)
    && InAMethod(PopScope(s))
  }

  lemma OpenedScope(s: State, len: nat, b: Block, i: Item)
    requires Ready(s)
    ensures var s1 := Opened(s, Pc(s) + len, b, i);
            && Ready(s1) && Pc(s1) == b.pc && Limit(s1) == b.limit && Top(s1.stack) == i
            && s1.ops == s.ops && s1.ctx == s.ctx && PopScope(s1) == Advance(s, len, Cells(s))
  {
    SetSelf(CommitPc(s, Pc(s) + len));
  }

  lemma LoopTurn(ms: Platform, turn: Turner, w: Stmt, s: State)
    requires Performs(turn, ms) && w.While? && Expects(s, ExecMode) && Room(s, StmtSize(w))
    requires ScopeAt(Code(s), Pc(s), WHILE_OP, w.width, w.cond, w.body)
    ensures var body, end := Pc(s) + 1 + w.width, Pc(s) + StmtSize(w);
            turn(s) == Next(Opened(s, end, Block(body, end), LoopItem(|s.ops|, false, body)))
  {
    StepWhile(turn, ms, s, w.width, w.width + Size(w.cond) + StmtsSize(w.body));
  }

  lemma LoopHead(w: Stmt, s: State, s1: State)
    requires w.While? && Ready(s) && InAMethod(s) && Room(s, StmtSize(w))
    requires ExprAt(Code(s), Pc(s) + 1 + w.width, w.cond) && StmtsAt(Code(s), Pc(s) + 1 + w.width + Size(w.cond), w.body)
    requires StmtSize(w) == 1 + w.width + Size(w.cond) + StmtsSize(w.body)
    requires var body, end := Pc(s) + 1 + w.width, Pc(s) + StmtSize(w);
             s1 == Opened(s, end, Block(body, end), LoopItem(|s.ops|, false, body))
    ensures AtHeadOf(w, s1)
  {
    var body, end := Pc(s) + 1 + w.width, Pc(s) + StmtSize(w);
    OpenedScope(s, StmtSize(w), Block(body, end), LoopItem(|s.ops|, false, body));
    SameShape(s, PopScope(s1));
  }

  lemma LoopParts(w: Stmt, code: seq<byte>, pc: nat)
    requires w.While? && ScopeAt(code, pc, WHILE_OP, w.width, w.cond, w.body)
    ensures ExprAt(code, pc + 1 + w.width, w.cond) && StmtsAt(code, pc + 1 + w.width + Size(w.cond), w.body)
    ensures StmtSize(w) == 1 + w.width + Size(w.cond) + StmtsSize(w.body)
  {
  }

  lemma LoopExit(turn: Turner, s: State, s1: State, n1: nat, fuel: nat, len: nat, level: Level, r: StmtResult)
    requires Stands(s, level) && Ready(s1) && Run(turn, s, 1) == Next(s1)
    requires s1.ops == s.ops && s1.ctx == s.ctx && PopScope(s1) == Advance(s, len, Cells(s))
    requires InAMethod(PopScope(s1)) && LoopRun(turn, s1, n1, fuel, r)
    ensures StmtRun(turn, s, 1 + n1, fuel, len, level, r)
  {
    Chain(turn, s, 1, s1, n1);
    if r.Returned? {
      SameMethod(PopScope(s1), s, r.v);
    }
  }

  /** Parsing While puts the loop at its head. */
  lemma EnterLoop(ms: Platform, turn: Turner, level: Level, w: Stmt, s: State) returns (s1: State)
    requires Performs(turn, ms) && w.While? && Stands(s, level) && Room(s, StmtSize(w))
    requires ScopeAt(Code(s), Pc(s), WHILE_OP, w.width, w.cond, w.body)
    ensures Run(turn, s, 1) == Next(s1) && AtHeadOf(w, s1)
    ensures s1.ops == s.ops && s1.ctx == s.ctx && PopScope(s1) == Advance(s, StmtSize(w), Cells(s))
  {
    var body, end := Pc(s) + 1 + w.width, Pc(s) + StmtSize(w);
    s1 := Opened(s, end, Block(body, end), LoopItem(|s.ops|, false, body));
    assert Run(turn, s, 1) == Next(s1) by {
      LoopTurn(ms, turn, w, s);
      One(turn, s);
    }
    assert AtHeadOf(w, s1) by {
      LoopParts(w, Code(s), Pc(s));
      LoopHead(w, s, s1);
    }
    OpenedScope(s, StmtSize(w), Block(body, end), LoopItem(|s.ops|, false, body));
  }

  lemma {:induction false} SimWhile(p: Program, ms: Platform, turn: Turner, fuel: nat, level: Level, w: Stmt, s: State) returns (n: nat)
    requires Loaded(p, ms, turn) && w.While? && StmtOk(p, w) && Stands(s, level) && Room(s, StmtSize(w)) && StmtAt(Code(s), Pc(s), w)
    ensures StmtRun(turn, s, n, fuel, StmtSize(w), level, ExecStmt(p, fuel, s.ops == [], level, w, Cells(s)))
    decreases fuel, w, 1
  {
    assert ScopeAt(Code(s), Pc(s), WHILE_OP, w.width, w.cond, w.body);
    var s1 := EnterLoop(ms, turn, level, w, s);
    n := SimLoop(p, ms, turn, fuel, level, w, s1);
    LoopExit(turn, s, s1, n, fuel, StmtSize(w), level, ExecStmt(p, fuel, s.ops == [], level, w, Cells(s)));
    n := 1 + n;
  }

  /** What m turns from the head of a loop do up to the test of its predicate, which comes out as r. */
  ghost predicate LoopTested(turn: Turner, w: Stmt, s: State, m: nat, fuel: nat, r: ExprResult)
    requires w.While? && Ready(s)
  {
    match r
    case Val(Integer(v), inv) =>
      Run(turn, s, m) ==
      Next(if v == 0 then SetInvocation(PopScope(s), inv) else SetItem(Advance(s, Size(w.cond), inv), LoopItem(|s.ops|, true, Pc(s)))) && m > 0
    case Val(Uninitialised, _) => Run(turn, s, m) == Stop(Panic)
    case ExprFault(f) => Run(turn, s, m) == Stop(f)
    case ExprTimeout => m >= fuel && Pending(turn, s, m)
  }

  /** A loop whose predicate came out as r, n turns from its head, and whose round from there gives r3. */
  lemma LoopTest(turn: Turner, ms: Platform, w: Stmt, s: State, n: nat, fuel: nat, r: ExprResult) returns (m: nat)
    requires Performs(turn, ms) && w.While? && AtHeadOf(w, s) && ExprRun(turn, s, n, fuel, Size(w.cond), true, r)
    ensures LoopTested(turn, w, s, m, fuel, r)
  {
    m := n;
    if r.Val? {
      var t := Advance(s, Size(w.cond), r.inv);
      StepLoopTest(turn, ms, PushOperand(t, Object(r.v)), t, r.v);
      Then(turn, s, n, PushOperand(t, Object(r.v)));
      m := n + 1;
    }
  }

  lemma {:induction false} SimHead(p: Program, ms: Platform, turn: Turner, fuel: nat, w: Stmt, s: State) returns (n: nat)
    requires Loaded(p, ms, turn) && w.While? && ExprOk(p, w.cond) && AtHeadOf(w, s)
    ensures LoopTested(turn, w, s, n, fuel, EvalExpr(p, fuel, s.ops == [], w.cond, Cells(s)))
    decreases fuel, w.cond, 2
  {
    ExprStarts(p, Code(s), Pc(s), w.cond);
    n := SimExpr(p, ms, turn, fuel, ObjectMode, w.cond, s);
    n := LoopTest(turn, ms, w, s, n, fuel, EvalExpr(p, fuel, s.ops == [], w.cond, Cells(s)));
  }

  lemma {:induction false} SimLoop(p: Program, ms: Platform, turn: Turner, fuel: nat, level: Level, w: Stmt, s: State) returns (n: nat)
    requires Loaded(p, ms, turn) && w.While? && StmtOk(p, w) && AtHeadOf(w, s)
    ensures LoopRun(turn, s, n, fuel, ExecStmt(p, fuel, s.ops == [], level, w, Cells(s)))
    decreases fuel, w, 0
  {
    n := SimHead(p, ms, turn, fuel, w, s);
    var r := EvalExpr(p, fuel, s.ops == [], w.cond, Cells(s));
    LoopMeans(p, fuel, s.ops == [], level, w, Cells(s), r);
    if Iterates(r) {
      var s3 := SetItem(Advance(s, Size(w.cond), r.inv), LoopItem(|s.ops|, true, Pc(s)));
      var m := SimIteration(p, ms, turn, fuel, level, w, s, s3);
      Chain(turn, s, n, s3, m);
      n := n + m;
    }
  }

  /** The results of a round that started in s3, behind the predicate of the head s. */
  ghost predicate RoundRun(turn: Turner, s: State, s3: State, n: nat, fuel: nat, r: StmtResult)
    requires Ready(s) && InAMethod(PopScope(s))
  {
    match r
    case Completed(inv) => Run(turn, s3, n) == Next(SetInvocation(PopScope(s), inv))
    case Returned(v, _) => Run(turn, s3, n) == Next(LeaveMethod(PopScope(s), v))
    case StmtFault(f) => Run(turn, s3, n) == Stop(f)
    case StmtTimeout => n + 1 >= fuel && Pending(turn, s3, n)
    case _ => false
  }

  /** A round whose statements come out as anything but Completed. */
  lemma RoundLeaves(turn: Turner, w: Stmt, s: State, s3: State, n: nat, fuel: nat, r3: StmtResult)
    requires w.While? && AtHeadOf(w, s) && Ready(s3) && Stands(s3, InLoop)
    requires s3 == SetItem(Advance(s, Size(w.cond), Cells(s3)), LoopItem(|s.ops|, true, Pc(s)))
    requires StmtRun(turn, s3, n, fuel, StmtsSize(w.body), InLoop, r3) && !r3.Completed?
    ensures RoundRun(turn, s, s3, n, fuel, if r3.Broke? then Completed(r3.inv) else r3)
  {
    match r3
    case Broke(inv2) => assert UnwindToLoop(SetInvocation(s3, inv2)) == Next(SetInvocation(s3, inv2));
    case Returned(v, _) =>
      assert UnwindToMethod(s3) == UnwindToMethod(PopScope(s3));
      SameMethod(PopScope(s), PopScope(s3), v);
    case _ =>
  }

  /** A round that ends at the end of the body is back at the head one turn later. */
  lemma RoundEnds(turn: Turner, ms: Platform, w: Stmt, s: State, s3: State, n: nat, inv2: Invocation)
    requires Performs(turn, ms) && w.While? && AtHeadOf(w, s) && Ready(s3)
    requires s3 == SetItem(Advance(s, Size(w.cond), Cells(s3)), LoopItem(|s.ops|, true, Pc(s)))
    requires Run(turn, s3, n) == Next(Advance(s3, StmtsSize(w.body), inv2))
    ensures Run(turn, s3, n + 1) == Next(SetInvocation(s, inv2)) && AtHeadOf(w, SetInvocation(s, inv2))
  {
    var s4 := Advance(s3, StmtsSize(w.body), inv2);
    StepLoopAgain(turn, ms, s4);
    Then(turn, s3, n, s4);
    HeadAgain(w, s, inv2);
  }

  lemma HeadAgain(w: Stmt, s: State, inv2: Invocation)
    requires w.While? && AtHeadOf(w, s)
    ensures AtHeadOf(w, SetInvocation(s, inv2))
  {
    SameShape(PopScope(s), PopScope(SetInvocation(s, inv2)));
  }

  /** What a round that starts with the cells inv comes to, with the rounds after it. */
  function FromRound(p: Program, fuel: nat, clear: bool, level: Level, w: Stmt, inv: Invocation): StmtResult
    requires ProgramOk(p) && w.While? && StmtOk(p, w)
  {
    match ExecStmts(p, fuel, clear, InLoop, w.body, inv)
    case Completed(inv2) => if fuel == 0 then StmtTimeout else ExecStmt(p, fuel - 1, clear, level, w, inv2)
    case Broke(inv2) => Completed(inv2)
    case r => r
  }

  /** A loop whose predicate came out as r and whose round gives r3. */
  function LoopResult(r: ExprResult, r3: StmtResult): StmtResult {
    match r
    case ExprTimeout => StmtTimeout
    case ExprFault(f) => StmtFault(f)
    case Val(Uninitialised, _) => StmtFault(Panic)
    case Val(Integer(n), inv) => if n == 0 then Completed(inv) else r3
  }

  predicate Iterates(r: ExprResult) {
    r.Val? && r.v.Integer? && r.v.n != 0
  }

  lemma LoopMeans(p: Program, fuel: nat, clear: bool, level: Level, w: Stmt, inv: Invocation, r: ExprResult)
    requires ProgramOk(p) && w.While? && StmtOk(p, w) && r == EvalExpr(p, fuel, clear, w.cond, inv)
    ensures ExecStmt(p, fuel, clear, level, w, inv) ==
            LoopResult(r, if Iterates(r) then FromRound(p, fuel, clear, level, w, r.inv) else StmtTimeout)
  {
  }

  /** One round of a loop, and the rounds after it. */
  lemma {:induction false} SimIteration(p: Program, ms: Platform, turn: Turner, fuel: nat, level: Level, w: Stmt, s: State, s3: State) returns (n: nat)
    requires Loaded(p, ms, turn) && w.While? && StmtOk(p, w) && AtHeadOf(w, s) && Ready(s3)
    requires s3 == SetItem(Advance(s, Size(w.cond), Cells(s3)), LoopItem(|s.ops|, true, Pc(s)))
    ensures RoundRun(turn, s, s3, n, fuel, FromRound(p, fuel, s.ops == [], level, w, Cells(s3)))
    decreases fuel, w.body, 1
  {
    SameShape(PopScope(s), PopScope(s3));
    assert UnwindToMethod(s3) == UnwindToMethod(PopScope(s3));
    n := SimStmts(p, ms, turn, fuel, InLoop, w.body, s3);
    var r3 := ExecStmts(p, fuel, s.ops == [], InLoop, w.body, Cells(s3));
    if r3.Completed? {
      n := SimAgain(p, ms, turn, fuel, level, w, s, s3, n, r3.inv);
    } else {
      RoundLeaves(turn, w, s, s3, n, fuel, r3);
    }
  }

  /** The rounds behind one that has come to the end of its body after n0 turns. */
  lemma {:induction false} SimAgain(p: Program, ms: Platform, turn: Turner, fuel: nat, level: Level, w: Stmt, s: State, s3: State, n0: nat, inv2: Invocation) returns (n: nat)
    requires Loaded(p, ms, turn) && w.While? && StmtOk(p, w) && AtHeadOf(w, s) && Ready(s3)
    requires s3 == SetItem(Advance(s, Size(w.cond), Cells(s3)), LoopItem(|s.ops|, true, Pc(s)))
    requires Run(turn, s3, n0) == Next(Advance(s3, StmtsSize(w.body), inv2))
    ensures RoundRun(turn, s, s3, n, fuel, if fuel == 0 then StmtTimeout else ExecStmt(p, fuel - 1, s.ops == [], level, w, inv2))
    decreases fuel, w.body, 0
  {
    RoundEnds(turn, ms, w, s, s3, n0, inv2);
    n := n0 + 1;
    if fuel > 0 {
      var s5 := SetInvocation(s, inv2);
      var m := SimLoop(p, ms, turn, fuel - 1, level, w, s5);
      n := RoundRepeats(turn, s, s3, n, s5, m, fuel, ExecStmt(p, fuel - 1, s.ops == [], level, w, inv2));
    }
  }

  lemma RoundRepeats(turn: Turner, s: State, s3: State, k: nat, s5: State, m: nat, fuel: nat, r: StmtResult) returns (n: nat)
    requires fuel > 0 && Ready(s) && InAMethod(PopScope(s)) && Ready(s5) && s5 == SetInvocation(s, Cells(s5)) && InAMethod(PopScope(s5))
    requires Run(turn, s3, k) == Next(s5) && LoopRun(turn, s5, m, fuel - 1, r)
    ensures RoundRun(turn, s, s3, n, fuel, r)
  {
    n := k + m;
    Chain(turn, s3, k, s5, m);
    if r.Returned? {
      SameMethod(PopScope(s), PopScope(s5), r.v);
    }
  }

  function Outward(level: Level, r: StmtResult): StmtResult {
    match r
    case Continued(inv) => if level == InLoop then Completed(inv) else Continued(inv)
    case _ => r
  }

  /** t is inside the branch of a condition of len bytes that starts at s. */
  ghost predicate InBranch(s: State, len: nat, t: State) {
    && Ready(s) && Ready(t) && Top(t.stack).CondItem? && Top(t.stack).branch
    && t.ops == s.ops && PopScope(t) == Advance(s, len, Cells(t))
  }

  lemma BranchUnwinds(s: State, len: nat, t: State, inv: Invocation)
    requires InBranch(s, len, t)
    ensures PopScope(SetInvocation(t, inv)) == Advance(s, len, inv)
    ensures UnwindToLoop(SetInvocation(t, inv)) == UnwindToLoop(Advance(s, len, inv))
    ensures UnwindToMethod(t) == UnwindToMethod(PopScope(t))
  {
  }

  lemma CondBreaks(turn: Turner, s: State, len: nat, level: Level, t: State, inv: Invocation)
    requires Stands(s, level) && InBranch(s, len, t) && InALoop(SetInvocation(t, inv))
    ensures InALoop(SetInvocation(s, inv)) && LeaveLoop(SetInvocation(t, inv)) == LeaveLoop(SetInvocation(s, inv))
  {
    BranchUnwinds(s, len, t, inv);
    SameLoop(Advance(s, len, inv), SetInvocation(s, inv));
  }

  lemma CondContinues(s: State, len: nat, level: Level, t: State, inv: Invocation)
    requires Stands(s, level) && InBranch(s, len, t) && InsideLoop(level)
    ensures UnwindToLoop(SetInvocation(t, inv)) ==
            if level == InLoop then Next(Advance(s, len, inv)) else UnwindToLoop(SetInvocation(s, inv))
  {
    BranchUnwinds(s, len, t, inv);
    StandsStill(s, level, len, inv);
    if level != InLoop {
      SameLoop(Advance(s, len, inv), SetInvocation(s, inv));
    }
  }

  lemma CondReturns(s: State, len: nat, t: State, v: Value)
    requires InBranch(s, len, t) && InAMethod(s) && InAMethod(t)
    ensures LeaveMethod(t, v) == LeaveMethod(s, v)
  {
    BranchUnwinds(s, len, t, Cells(t));
    SameMethod(s, PopScope(t), v);
  }

  lemma CondCompletes(turn: Turner, ms: Platform, s: State, len: nat, t: State, n: nat, tlen: nat, inv: Invocation)
    requires Performs(turn, ms) && InBranch(s, len, t) && Pc(t) + tlen == Limit(t)
    requires Run(turn, t, n) == Next(Advance(t, tlen, inv))
    ensures Run(turn, t, n + 1) == Next(Advance(s, len, inv))
  {
    var t1 := Advance(t, tlen, inv);
    StepCondEnd(turn, ms, t1);
    Then(turn, t, n, t1);
  }

  /** Leaving the branch of a condition. */
  lemma CondExit(turn: Turner, ms: Platform, s: State, len: nat, level: Level, k: nat, t: State, n: nat, fuel: nat, tlen: nat, r: StmtResult) returns (m: nat)
    requires Performs(turn, ms) && Stands(s, level) && Stands(t, InCond(InsideLoop(level))) && InBranch(s, len, t)
    requires Run(turn, s, k) == Next(t) && Pc(t) + tlen == Limit(t)
    requires StmtRun(turn, t, n, fuel, tlen, InCond(InsideLoop(level)), r)
    ensures StmtRun(turn, s, m, fuel, len, level, Outward(level, r))
  {
    m := if r.Completed? then n + 1 else n;
    Chain(turn, s, k, t, m);
    match r {
      case Completed(inv) => CondCompletes(turn, ms, s, len, t, n, tlen, inv);
      case Broke(inv) => CondBreaks(turn, s, len, level, t, inv);
      case Continued(inv) => CondContinues(s, len, level, t, inv);
      case Returned(v, _) => CondReturns(s, len, t, v);
      case _ =>
    }
    m := k + m;
  }

  /** The state after If is parsed, with the predicate ahead and what will become of it. */
  ghost predicate AtCondition(st: Stmt, s: State, s1: State)
    requires st.If? || st.IfElse?
  {
    && Ready(s) && Room(s1, Size(st.cond) + StmtsSize(st.thn)) && Top(s1.stack).CondItem?
    && s1.ops == s.ops && s1.ctx == s.ctx && PopScope(s1) == Advance(s, StmtSize(st), Cells(s))
    && ExprAt(Code(s1), Pc(s1), st.cond) && StmtsAt(Code(s1), Pc(s1) + Size(st.cond), st.thn)
    && Pc(s1) + Size(st.cond) + StmtsSize(st.thn) == Limit(s1)
    && var i := Top(s1.stack);
    && i.frame == |s.ops| && !i.branch && i.hasElse == st.IfElse?
    && (st.IfElse? ==> StmtsAt(Code(s), i.elsePc, st.els) && i.elsePc + StmtsSize(st.els) == i.elseLimit <= |Code(s)|)
  }

  /** The item and block a condition at s opens, and where its parent goes on. */
  function CondItemAt(st: Stmt, s: State): Item
    requires (st.If? || st.IfElse?) && s.blk.Entry?
  {
    var end := Pc(s) + 1 + st.width + Size(st.cond) + StmtsSize(st.thn);
    if st.If? then CondItem(|s.ops|, false, false, 0, end + 1)
    else CondItem(|s.ops|, false, true, end + 1 + st.elseWidth, Pc(s) + StmtSize(st))
  }

  function CondBlockAt(st: Stmt, s: State): Block
    requires (st.If? || st.IfElse?) && s.blk.Entry?
  {
    var pc := Pc(s) + 1 + st.width;
    Block(pc, pc + Size(st.cond) + StmtsSize(st.thn))
  }

  /** The package of an If, and that of its Else. */
  ghost predicate Packages(st: Stmt, code: seq<byte>, pc: nat)
    requires st.If? || st.IfElse?
  {
    && PackageAt(code, pc, IF_OP, st.width, st.width + Size(st.cond) + StmtsSize(st.thn))
    && (st.IfElse? ==>
          PackageAt(code, pc + 1 + st.width + Size(st.cond) + StmtsSize(st.thn), ELSE_OP, st.elseWidth, st.elseWidth + StmtsSize(st.els)))
  }

  lemma PackagesOf(st: Stmt, code: seq<byte>, pc: nat)
    requires (st.If? || st.IfElse?) && StmtAt(code, pc, st)
    ensures Packages(st, code, pc)
  {
    ScopeOf(st, code, pc);
    if st.IfElse? {
      ElseOf(st, code, pc);
    }
  }

  lemma ScopeOf(st: Stmt, code: seq<byte>, pc: nat)
    requires (st.If? || st.IfElse?) && StmtAt(code, pc, st)
    ensures PackageAt(code, pc, IF_OP, st.width, st.width + Size(st.cond) + StmtsSize(st.thn))
  {
    assert ScopeAt(code, pc, IF_OP, st.width, st.cond, st.thn);
  }

  lemma ElseOf(st: Stmt, code: seq<byte>, pc: nat)
    requires st.IfElse? && StmtAt(code, pc, st)
    ensures PackageAt(code, pc + 1 + st.width + Size(st.cond) + StmtsSize(st.thn), ELSE_OP, st.elseWidth, st.elseWidth + StmtsSize(st.els))
  {
    assert ElseAt(code, pc + 1 + st.width + Size(st.cond) + StmtsSize(st.thn), st.elseWidth, st.els);
  }

  lemma CondTurn(ms: Platform, turn: Turner, st: Stmt, s: State)
    requires Performs(turn, ms) && (st.If? || st.IfElse?) && Expects(s, ExecMode)
    requires Room(s, StmtSize(st)) && Packages(st, Code(s), Pc(s)) && NoElse(s, StmtSize(st))
    ensures Run(turn, s, 1) == Next(Opened(s, Pc(s) + StmtSize(st), CondBlockAt(st, s), CondItemAt(st, s)))
  {
    if st.If? {
      IfTurn(ms, turn, st, s);
    } else {
      IfElseTurn(ms, turn, st, s);
    }
    One(turn, s);
  }

  lemma IfTurn(ms: Platform, turn: Turner, st: Stmt, s: State)
    requires Performs(turn, ms) && st.If? && Expects(s, ExecMode)
    requires Room(s, StmtSize(st)) && Packages(st, Code(s), Pc(s)) && NoElse(s, StmtSize(st))
    ensures turn(s) == Next(Opened(s, Pc(s) + StmtSize(st), CondBlockAt(st, s), CondItemAt(st, s)))
  {
    StepIf(turn, ms, s, st.width, st.width + Size(st.cond) + StmtsSize(st.thn));
  }

  lemma IfElseTurn(ms: Platform, turn: Turner, st: Stmt, s: State)
    requires Performs(turn, ms) && st.IfElse? && Expects(s, ExecMode)
    requires Room(s, StmtSize(st)) && Packages(st, Code(s), Pc(s))
    ensures turn(s) == Next(Opened(s, Pc(s) + StmtSize(st), CondBlockAt(st, s), CondItemAt(st, s)))
  {
    StepIfElse(turn, ms, s, st.width, st.width + Size(st.cond) + StmtsSize(st.thn), Pc(s) + 1 + st.width + Size(st.cond) + StmtsSize(st.thn),
               st.elseWidth, st.elseWidth + StmtsSize(st.els));
  }

  /** What n turns from s do up to the test of the predicate, parsed in s1, that comes out as r; t is behind it. */
  ghost predicate TestRun(turn: Turner, st: Stmt, s: State, s1: State, t: State, n: nat, fuel: nat, r: ExprResult)
    requires (st.If? || st.IfElse?) && Ready(s) && Ready(s1) && Top(s1.stack).CondItem?
  {
    && (r.Val? ==> Ready(t) && t == Advance(s1, Size(st.cond), r.inv))
    && match r
       case Val(Integer(v), inv) =>
         var i := Top(s1.stack);
         var taken := SetItem(t, i.(branch := true));
         Run(turn, s, n) ==
         Next(if v != 0 then taken
              else if i.hasElse then taken.(blk := Push(Pop(t.blk), Block(i.elsePc, i.elseLimit)))
              else Advance(s, StmtSize(st), inv))
       case Val(Uninitialised, _) => Run(turn, s, n) == Stop(Panic)
       case ExprFault(f) => Run(turn, s, n) == Stop(f)
       case ExprTimeout => n >= fuel && Pending(turn, s, n)
  }

  /** From the parsed condition to the test of its predicate. */
  lemma CondTest(turn: Turner, ms: Platform, s: State, s1: State, st: Stmt, n1: nat, fuel: nat, r: ExprResult, level: Level) returns (n: nat, t: State)
    requires Performs(turn, ms) && (st.If? || st.IfElse?) && Stands(s, level)
    requires Run(turn, s, 1) == Next(s1) && AtCondition(st, s, s1)
    requires ExprRun(turn, s1, n1, fuel, Size(st.cond), true, r)
    ensures TestRun(turn, st, s, s1, t, n, fuel, r)
  {
    Chain(turn, s, 1, s1, n1);
    n := 1 + n1;
    t := s1;
    if r.Val? {
      t := Advance(s1, Size(st.cond), r.inv);
      StepCondTest(turn, ms, PushOperand(t, Object(r.v)), t, r.v);
      Then(turn, s, n, PushOperand(t, Object(r.v)));
      n := n + 1;
    }
  }

  lemma CondParts(st: Stmt, s: State)
    requires (st.If? || st.IfElse?) && Ready(s) && StmtAt(Code(s), Pc(s), st)
    ensures ExprAt(Code(s), CondBlockAt(st, s).pc, st.cond) && StmtsAt(Code(s), CondBlockAt(st, s).pc + Size(st.cond), st.thn)
    ensures st.IfElse? ==> StmtsAt(Code(s), CondItemAt(st, s).elsePc, st.els)
  {
    assert ScopeAt(Code(s), Pc(s), IF_OP, st.width, st.cond, st.thn);
  }

  lemma OpenedCond(st: Stmt, s: State, s1: State)
    requires (st.If? || st.IfElse?) && Room(s, StmtSize(st))
    requires ExprAt(Code(s), CondBlockAt(st, s).pc, st.cond) && StmtsAt(Code(s), CondBlockAt(st, s).pc + Size(st.cond), st.thn)
    requires st.IfElse? ==> StmtsAt(Code(s), CondItemAt(st, s).elsePc, st.els)
    requires s1 == Opened(s, Pc(s) + StmtSize(st), CondBlockAt(st, s), CondItemAt(st, s))
    ensures AtCondition(st, s, s1)
  {
    OpenedScope(s, StmtSize(st), CondBlockAt(st, s), CondItemAt(st, s));
    assert st.IfElse? ==> CondItemAt(st, s).elsePc + StmtsSize(st.els) == CondItemAt(st, s).elseLimit;
  }

  /** A condition whose predicate came out as r and whose chosen branch gives r2. */
  function CondResult(level: Level, st: Stmt, r: ExprResult, r2: StmtResult): StmtResult
    requires st.If? || st.IfElse?
  {
    match r
    case ExprTimeout => StmtTimeout
    case ExprFault(f) => StmtFault(f)
    case Val(Uninitialised, _) => StmtFault(Panic)
    case Val(Integer(n), inv1) => if n == 0 && st.If? then Completed(inv1) else Outward(level, r2)
  }

  predicate Branches(st: Stmt, r: ExprResult)
    requires st.If? || st.IfElse?
  {
    r.Val? && r.v.Integer? && (r.v.n != 0 || st.IfElse?)
  }

  lemma CondStops(turn: Turner, s: State, s1: State, t: State, n: nat, fuel: nat, level: Level, st: Stmt, r: ExprResult, r2: StmtResult)
    requires (st.If? || st.IfElse?) && Stands(s, level) && AtCondition(st, s, s1) && TestRun(turn, st, s, s1, t, n, fuel, r) && !Branches(st, r)
    ensures StmtRun(turn, s, n, fuel, StmtSize(st), level, CondResult(level, st, r, r2))
  {
  }

  lemma CondMeans(p: Program, fuel: nat, clear: bool, level: Level, st: Stmt, inv: Invocation)
    requires ProgramOk(p) && StmtOk(p, st) && (st.If? || st.IfElse?)
    ensures var r := EvalExpr(p, fuel, clear, st.cond, inv);
            ExecCond(p, fuel, clear, level, st, inv) ==
            CondResult(level, st, r,
                       if Branches(st, r) then ExecStmts(p, fuel, clear, InCond(InsideLoop(level)), if r.v.n != 0 then st.thn else st.els, r.inv)
                       else StmtTimeout)
  {
  }

  /** Parsing If opens the condition. */
  lemma ParsedCondition(ms: Platform, turn: Turner, level: Level, st: Stmt, s: State) returns (s1: State)
    requires Performs(turn, ms) && (st.If? || st.IfElse?) && Stands(s, level)
    requires Room(s, StmtSize(st)) && StmtAt(Code(s), Pc(s), st) && NoElse(s, StmtSize(st))
    ensures Run(turn, s, 1) == Next(s1) && AtCondition(st, s, s1)
  {
    s1 := Opened(s, Pc(s) + StmtSize(st), CondBlockAt(st, s), CondItemAt(st, s));
    assert AtCondition(st, s, s1) by {
      CondParts(st, s);
      OpenedCond(st, s, s1);
    }
    assert Run(turn, s, 1) == Next(s1) by {
      PackagesOf(st, Code(s), Pc(s));
      CondTurn(ms, turn, st, s);
    }
  }

  /** A condition up to the test of its predicate. */
  lemma {:induction false} SimTest(p: Program, ms: Platform, turn: Turner, fuel: nat, level: Level, st: Stmt, s: State)
    returns (n: nat, s1: State, t: State)
    requires Loaded(p, ms, turn) && (st.If? || st.IfElse?) && ExprOk(p, st.cond) && Stands(s, level)
    requires Room(s, StmtSize(st)) && StmtAt(Code(s), Pc(s), st) && NoElse(s, StmtSize(st))
    ensures AtCondition(st, s, s1) && TestRun(turn, st, s, s1, t, n, fuel, EvalExpr(p, fuel, s.ops == [], st.cond, Cells(s)))
    decreases fuel, st, 0
  {
    s1 := ParsedCondition(ms, turn, level, st, s);
    ExprStarts(p, Code(s1), Pc(s1), st.cond);
    n := SimExpr(p, ms, turn, fuel, ObjectMode, st.cond, s1);
    n, t := CondTest(turn, ms, s, s1, st, n, fuel, EvalExpr(p, fuel, s.ops == [], st.cond, Cells(s)), level);
  }

  lemma {:induction false} SimCond(p: Program, ms: Platform, turn: Turner, fuel: nat, level: Level, st: Stmt, s: State) returns (n: nat)
    requires Loaded(p, ms, turn) && (st.If? || st.IfElse?) && StmtOk(p, st) && Stands(s, level)
    requires Room(s, StmtSize(st)) && StmtAt(Code(s), Pc(s), st) && NoElse(s, StmtSize(st))
    ensures StmtRun(turn, s, n, fuel, StmtSize(st), level, ExecCond(p, fuel, s.ops == [], level, st, Cells(s)))
    decreases fuel, st, 1
  {
    var s1, t;
    n, s1, t := SimTest(p, ms, turn, fuel, level, st, s);
    var r := EvalExpr(p, fuel, s.ops == [], st.cond, Cells(s));
    CondMeans(p, fuel, s.ops == [], level, st, Cells(s));
    if Branches(st, r) {
      n := SimBranch(p, ms, turn, fuel, level, st, s, s1, t, n, r);
    } else {
      CondStops(turn, s, s1, t, n, fuel, level, st, r, StmtTimeout);
    }
  }

  /** The state in which the chosen branch starts. */
  lemma TakesBranch(turn: Turner, st: Stmt, s: State, s1: State, t: State, k: nat, fuel: nat, level: Level, r: ExprResult) returns (s3: State)
    requires (st.If? || st.IfElse?) && Stands(s, level) && AtCondition(st, s, s1) && TestRun(turn, st, s, s1, t, k, fuel, r) && Branches(st, r)
    ensures Run(turn, s, k) == Next(s3) && InBranch(s, StmtSize(st), s3) && Cells(s3) == r.inv && Code(s3) == Code(s)
    ensures Stands(s3, InCond(InsideLoop(level)))
    ensures var body := if r.v.n != 0 then st.thn else st.els;
            Room(s3, StmtsSize(body)) && Pc(s3) + StmtsSize(body) == Limit(s3) && StmtsAt(Code(s3), Pc(s3), body)
  {
    s3 := Run(turn, s, k).s;
    assert PopScope(s3) == Advance(s, StmtSize(st), r.inv);
    StandsInside(s, level, StmtSize(st), s3);
  }

  lemma StandsInside(s: State, level: Level, len: nat, s3: State)
    requires Stands(s, level) && InBranch(s, len, s3)
    ensures Stands(s3, InCond(InsideLoop(level)))
  {
    StandsStill(s, level, len, Cells(s3));
    assert UnwindToMethod(s3) == UnwindToMethod(PopScope(s3));
    assert UnwindToLoop(s3) == UnwindToLoop(PopScope(s3));
  }

  /** The branch of a condition whose predicate came out as r, k turns after s. */
  lemma {:induction false} SimBranch(p: Program, ms: Platform, turn: Turner, fuel: nat, level: Level, st: Stmt, s: State, s1: State, t: State, k: nat, r: ExprResult)
    returns (n: nat)
    requires Loaded(p, ms, turn) && (st.If? || st.IfElse?) && StmtOk(p, st) && Stands(s, level)
    requires AtCondition(st, s, s1) && TestRun(turn, st, s, s1, t, k, fuel, r) && Branches(st, r)
    ensures StmtRun(turn, s, n, fuel, StmtSize(st), level,
                    Outward(level, ExecStmts(p, fuel, s.ops == [], InCond(InsideLoop(level)), if r.v.n != 0 then st.thn else st.els, r.inv)))
    decreases fuel, st, 0
  {
    var body := if r.v.n != 0 then st.thn else st.els;
    var s3 := TakesBranch(turn, st, s, s1, t, k, fuel, level, r);
    var n3 := SimStmts(p, ms, turn, fuel, InCond(InsideLoop(level)), body, s3);
    n := CondExit(turn, ms, s, StmtSize(st), level, k, s3, n3, fuel, StmtsSize(body),
                  ExecStmts(p, fuel, s.ops == [], InCond(InsideLoop(level)), body, r.inv));
  }
}
