/**
 Single turns of the interpreter on well-formed code. The turn is a function value that
 performs Process; a fact about Process becomes visible only where a lemma links a state,
 which keeps the switch over all items and opcodes out of longer proofs.
 */
module AmlSteps {
  import opened AmlTypes
  import opened AmlMachine
  import opened AmlInvariant
  import opened AmlSyntax
  import opened AmlLayout

  predicate Link(s: State) {
    true
  }

  ghost predicate Performs(turn: Turner, ms: Platform) {
    forall s {:trigger Link(s)} :: Link(s) && s.stack.Entry? ==> turn(s) == Process(ms, s)
  }

  lemma LaiTurnPerforms(ms: Platform)
    ensures Performs(LaiTurn(ms), ms)
  {
  }

  // ------------------------------------------------------------------------ states

  function Pc(s: State): nat
    requires s.blk.Entry?
  {
    Top(s.blk).pc
  }

  function Limit(s: State): nat
    requires s.blk.Entry?
  {
    Top(s.blk).limit
  }

  function Code(s: State): seq<byte>
    requires s.ctx.Entry?
  {
    Top(s.ctx).code
  }

  function Cells(s: State): Invocation
    requires s.ctx.Entry?
  {
    Top(s.ctx).inv
  }

  /** The top block holds at least n more bytes, and all of them belong to the method. */
  predicate Room(s: State, n: nat) {
    Ready(s) && Pc(s) + n <= Limit(s) <= |Code(s)|
  }

  /** The top item, with the operands it has, parses in the mode next. */
  predicate Expects(s: State, mode: Mode) {
    && Ready(s) && Pc(s) < Limit(s)
    && match Top(s.stack)
       case MethodItem(_) => mode == ExecMode
       case OpItem(frame, opcode, _) =>
         && IsOperator(opcode) && frame <= |s.ops| < frame + Arity(opcode)
         && mode == OperandMode(opcode, |s.ops| - frame)
       case InvokeItem(frame, argc, _) => argc <= 7 && frame + 1 <= |s.ops| < frame + 1 + argc && mode == ObjectMode
       case ReturnItem(frame) => |s.ops| == frame && mode == ObjectMode
       case LoopItem(frame, iterating, _) => if iterating then mode == ExecMode else |s.ops| == frame && mode == ObjectMode
       case CondItem(frame, branch, _, _, _) => if branch then mode == ExecMode else |s.ops| == frame && mode == ObjectMode
  }

  lemma TurnParses(ms: Platform, s: State, mode: Mode)
    requires Expects(s, mode)
    ensures Process(ms, s) == Parse(ms, s, mode)
  {
  }

  // ------------------------------------------------------------------- parsing turns

  lemma StepConstant(turn: Turner, ms: Platform, mode: Mode, opcode: byte, n: word, s: State)
    requires Performs(turn, ms) && Expects(s, mode) && mode != ReferenceMode
    requires Room(s, 1 + DataSize(opcode)) && ConstantAt(Code(s), Pc(s), opcode, n)
    ensures turn(s) == Next(PushResult(CommitPc(s, Pc(s) + 1 + DataSize(opcode)), mode == ObjectMode, Integer(n)))
  {
    assert turn(s) == ParseConstant(s, mode, opcode) by {
      TurnParses(ms, s, mode);
      assert Link(s);
    }
  }

  lemma StepCell(turn: Turner, ms: Platform, cell: Operand, opcode: byte, s: State)
    requires Performs(turn, ms) && Expects(s, ObjectMode) && ByteAt(Code(s), Pc(s), opcode)
    requires LOCAL0_OP <= opcode < ARG0_OP + 7
    requires cell == (if opcode < ARG0_OP then LocalName(opcode - LOCAL0_OP) else ArgName(opcode - ARG0_OP))
    ensures turn(s) ==
            Next(PushOperand(CommitPc(s, Pc(s) + 1),
                             Object(if opcode < ARG0_OP then Cells(s).local[cell.index] else Cells(s).arg[cell.index])))
  {
    TurnParses(ms, s, ObjectMode);
    assert Link(s);
  }

  lemma StepTarget(turn: Turner, ms: Platform, t: Target, s: State)
    requires Performs(turn, ms) && Expects(s, ReferenceMode) && ByteAt(Code(s), Pc(s), EncodeTarget(t))
    ensures turn(s) == Next(PushOperand(CommitPc(s, Pc(s) + 1), TargetOperand(t)))
  {
    TurnParses(ms, s, ReferenceMode);
    assert Link(s);
  }

  lemma StepOperator(turn: Turner, ms: Platform, mode: Mode, opcode: byte, s: State)
    requires Performs(turn, ms) && Expects(s, mode) && IsOperator(opcode) && ByteAt(Code(s), Pc(s), opcode)
    ensures turn(s) == Next(PushItem(CommitPc(s, Pc(s) + 1), OpItem(|s.ops|, opcode, mode != ExecMode)))
  {
    TurnParses(ms, s, mode);
    assert Link(s);
  }

  lemma StepName(turn: Turner, ms: Platform, mode: Mode, name: seq<byte>, s: State)
    requires Performs(turn, ms) && Expects(s, mode) && mode != ReferenceMode && NameAt(Code(s), Pc(s), name)
    requires name in ms.nodes ==> ms.nodes[name].argc <= 7
    ensures turn(s) ==
            if name !in ms.nodes then Stop(ErrorCode)
            else Next(PushOperand(PushItem(CommitPc(s, Pc(s) + 4), InvokeItem(|s.ops|, ms.nodes[name].argc, mode == ObjectMode)), MethodName(name)))
  {
    TurnParses(ms, s, mode);
    assert Link(s);
  }

  lemma StepNop(turn: Turner, ms: Platform, s: State)
    requires Performs(turn, ms) && Expects(s, ExecMode) && ByteAt(Code(s), Pc(s), NOP_OP)
    ensures turn(s) == Next(CommitPc(s, Pc(s) + 1))
  {
    TurnParses(ms, s, ExecMode);
    assert Link(s);
  }

  lemma StepIdleCell(turn: Turner, ms: Platform, opcode: byte, s: State)
    requires Performs(turn, ms) && Expects(s, ExecMode) && ByteAt(Code(s), Pc(s), opcode) && LOCAL0_OP <= opcode < ARG0_OP + 7
    ensures turn(s) == Stop(Panic)
  {
    TurnParses(ms, s, ExecMode);
    assert Link(s);
  }

  lemma StepReturnOp(turn: Turner, ms: Platform, s: State)
    requires Performs(turn, ms) && Expects(s, ExecMode) && ByteAt(Code(s), Pc(s), RETURN_OP)
    ensures turn(s) == Next(PushItem(CommitPc(s, Pc(s) + 1), ReturnItem(|s.ops|)))
  {
    TurnParses(ms, s, ExecMode);
    assert Link(s);
  }

  lemma StepContinue(turn: Turner, ms: Platform, s: State)
    requires Performs(turn, ms) && Expects(s, ExecMode) && ByteAt(Code(s), Pc(s), CONTINUE_OP)
    ensures turn(s) == UnwindToLoop(s)
  {
    TurnParses(ms, s, ExecMode);
    assert Link(s);
  }

  ghost predicate InALoop(s: State) {
    UnwindToLoop(s).Next? && UnwindToLoop(s).s.blk.Entry?
  }

  function LeaveLoop(s: State): State
    requires InALoop(s)
  {
    PopScope(UnwindToLoop(s).s)
  }

  lemma StepBreak(turn: Turner, ms: Platform, s: State)
    requires Performs(turn, ms) && Expects(s, ExecMode) && ByteAt(Code(s), Pc(s), BREAK_OP)
    requires InALoop(s) || UnwindToLoop(s) == Stop(Panic)
    ensures turn(s) == if InALoop(s) then Next(LeaveLoop(s)) else Stop(Panic)
  {
    TurnParses(ms, s, ExecMode);
    assert Link(s);
  }

  /** The turn that meets If or While, without the rest of the opcode switch. */
  lemma StepOpens(turn: Turner, ms: Platform, s: State)
    requires Performs(turn, ms) && Expects(s, ExecMode) && Pc(s) < |Code(s)|
    ensures Code(s)[Pc(s)] == WHILE_OP ==> turn(s) == ParseWhile(s)
    ensures Code(s)[Pc(s)] == IF_OP ==> turn(s) == ParseIf(s)
  {
    TurnParses(ms, s, ExecMode);
    assert Link(s);
  }

  /** A scope with block b and item i is opened, and its parent will go on at `after`. */
  function Opened(s: State, after: nat, b: Block, i: Item): State
    requires s.blk.Entry?
  {
    PushItem(PushBlock(CommitPc(s, after), b), i)
  }

  lemma StepWhile(turn: Turner, ms: Platform, s: State, width: nat, size: nat)
    requires Performs(turn, ms) && Expects(s, ExecMode) && PackageAt(Code(s), Pc(s), WHILE_OP, width, size)
    requires Room(s, 1 + width)
    ensures var body, end := Pc(s) + 1 + width, Pc(s) + 1 + size;
            turn(s) == Next(Opened(s, end, Block(body, end), LoopItem(|s.ops|, false, body)))
  {
    StepOpens(turn, ms, s);
  }

  lemma StepIf(turn: Turner, ms: Platform, s: State, width: nat, size: nat)
    requires Performs(turn, ms) && Expects(s, ExecMode) && PackageAt(Code(s), Pc(s), IF_OP, width, size)
    requires Room(s, 1 + width)
    requires Pc(s) + 1 + size < Limit(s) ==> Code(s)[Pc(s) + 1 + size] != ELSE_OP
    ensures var body, end := Pc(s) + 1 + width, Pc(s) + 1 + size;
            turn(s) == Next(Opened(s, end, Block(body, end), CondItem(|s.ops|, false, false, 0, end + 1)))
  {
    StepOpens(turn, ms, s);
  }

  lemma StepIfElse(turn: Turner, ms: Platform, s: State, width: nat, size: nat, end: nat, elseWidth: nat, elseSize: nat)
    requires Performs(turn, ms) && Expects(s, ExecMode) && PackageAt(Code(s), Pc(s), IF_OP, width, size)
    requires end == Pc(s) + 1 + size && PackageAt(Code(s), end, ELSE_OP, elseWidth, elseSize)
    requires Room(s, 1 + width) && Room(s, 1 + size + 1 + elseWidth)
    ensures var body, after := Pc(s) + 1 + width, end + 1 + elseSize;
            turn(s) == Next(Opened(s, after, Block(body, end), CondItem(|s.ops|, false, true, end + 1 + elseWidth, after)))
  {
    StepOpens(turn, ms, s);
  }

  // ---------------------------------------------------------------- completing turns

  lemma StepReduce(turn: Turner, ms: Platform, s: State, below: seq<Operand>, operands: seq<Operand>)
    requires Performs(turn, ms) && Ready(s) && Pc(s) <= Limit(s) && Top(s.stack).OpItem?
    requires var i := Top(s.stack); i.frame == |below| && IsOperator(i.opcode) && |operands| == Arity(i.opcode)
    requires s.ops == below + operands
    ensures turn(s) ==
            match ms.reduce(Top(s.stack).opcode, operands, Cells(s))
            case Stuck(f) => Stop(f)
            case Reduced(v, inv) =>
              Next(PushResult(SetInvocation(s, inv).(stack := Pop(s.stack), ops := below), Top(s.stack).wantResult, v))
  {
    assert s.ops[|below|..] == operands;
    assert s.ops[..|s.ops| - |operands|] == below;
    assert Link(s);
  }

  /** The state in which a called method starts. */
  function Entered(s: State, callee: Context, want: bool): State {
    PushItem(PushBlock(s.(ctx := Push(s.ctx, callee)), Block(0, |callee.code|)), MethodItem(want))
  }

  lemma StepEnter(turn: Turner, ms: Platform, s: State, below: seq<Operand>, name: seq<byte>, operands: seq<Operand>)
    requires Performs(turn, ms) && Ready(s) && Pc(s) <= Limit(s) && Top(s.stack).InvokeItem?
    requires name in ms.nodes && |operands| == Top(s.stack).argc <= 7 && Top(s.stack).frame == |below|
    requires forall i :: 0 <= i < |operands| ==> operands[i].Object?
    requires s.ops == below + [MethodName(name)] + operands
    ensures turn(s) ==
            Next(Entered(s.(stack := Pop(s.stack), ops := below),
                         Context(ms.nodes[name].code, Arguments(operands)), Top(s.stack).wantResult))
  {
    var i := Top(s.stack);
    assert turn(s) == ProcessInvoke(ms, s, i.frame, i.argc, i.wantResult) by {
      assert Link(s);
    }
    var f := |below|;
    assert s.ops[f] == MethodName(name);
    assert s.ops[f + 1..] == operands;
    forall i | f < i < |s.ops| ensures s.ops[i].Object? {
      assert s.ops[i] == operands[i - f - 1];
    }
    assert s.ops[..|s.ops| - (|operands| + 1)] == below;
  }

  lemma StepImplicitReturn(turn: Turner, ms: Platform, s: State)
    requires Performs(turn, ms) && Ready(s) && AtEnd(s) && Top(s.stack).MethodItem?
    ensures turn(s) ==
            if s.ops == [] then Next(PushResult(PopMethod(s), Top(s.stack).wantResult, Integer(0))) else Stop(Panic)
  {
    assert Link(s);
  }

  ghost predicate InAMethod(s: State) {
    UnwindToMethod(s).Next? && UnwindToMethod(s).s.blk.Entry? && UnwindToMethod(s).s.ctx.Entry?
  }

  function LeaveMethod(s: State, v: Value): State
    requires InAMethod(s)
  {
    var u := UnwindToMethod(s).s;
    PushResult(PopMethod(u), Top(u.stack).wantResult, v)
  }

  lemma StepReturn(turn: Turner, ms: Platform, s: State, t: State, v: Value)
    requires Performs(turn, ms) && Ready(s) && Pc(s) <= Limit(s)
    requires Top(s.stack) == ReturnItem(|t.ops|) && s == t.(stack := s.stack, ops := t.ops + [Object(v)]) && Pop(s.stack) == t.stack
    requires InAMethod(t)
    ensures turn(s) == Next(LeaveMethod(t, v))
  {
    assert PopItem(DropOperands(s, 1)) == t;
    assert Link(s);
  }

  /** The predicate of a loop or condition has been evaluated to v in t. */
  ghost predicate Tested(s: State, t: State, v: Value) {
    && Ready(t) && Pc(t) <= Limit(t)
    && s == t.(ops := t.ops + [Object(v)])
  }

  lemma StepLoopTest(turn: Turner, ms: Platform, s: State, t: State, v: Value)
    requires Performs(turn, ms) && Tested(s, t, v)
    requires Top(t.stack).LoopItem? && !Top(t.stack).iterating && Top(t.stack).frame == |t.ops|
    ensures turn(s) ==
            if v.Uninitialised? then Stop(Panic)
            else if v.n == 0 then Next(PopScope(t))
            else Next(SetItem(t, Top(t.stack).(iterating := true)))
  {
    assert DropOperands(s, 1) == t;
    assert Link(s);
  }

  lemma StepLoopAgain(turn: Turner, ms: Platform, s: State)
    requires Performs(turn, ms) && Ready(s) && AtEnd(s) && Top(s.stack).LoopItem? && Top(s.stack).iterating
    ensures turn(s) == Next(CommitPc(SetItem(s, Top(s.stack).(iterating := false)), Top(s.stack).pred))
  {
    assert Link(s);
  }

  lemma StepCondTest(turn: Turner, ms: Platform, s: State, t: State, v: Value)
    requires Performs(turn, ms) && Tested(s, t, v)
    requires Top(t.stack).CondItem? && !Top(t.stack).branch && Top(t.stack).frame == |t.ops|
    ensures var i := Top(t.stack);
            var taken := SetItem(t, i.(branch := true));
            turn(s) ==
            if v.Uninitialised? then Stop(Panic)
            else if v.n != 0 then Next(taken)
            else if i.hasElse then Next(taken.(blk := Push(Pop(t.blk), Block(i.elsePc, i.elseLimit))))
            else Next(PopScope(t))
  {
    assert DropOperands(s, 1) == t;
    assert Link(s);
  }

  lemma StepCondEnd(turn: Turner, ms: Platform, s: State)
    requires Performs(turn, ms) && Ready(s) && AtEnd(s) && Top(s.stack).CondItem? && Top(s.stack).branch
    ensures turn(s) == Next(PopScope(s))
  {
    assert Link(s);
  }
}
