/**
 How the four stacks of the interpreter fit together. The invariant holds for every byte
 string, well-formed AML or not; a run may panic on the code, but never because its own
 stacks disagree.
 */
module AmlInvariant {
  import opened AmlTypes
  import opened AmlMachine

  /** Items that own an entry of the block stack. */
  function Scopes(stack: Stack<Item>): nat {
    if stack.Empty? then 0
    else Scopes(Pop(stack)) + (if Top(stack).MethodItem? || Top(stack).LoopItem? || Top(stack).CondItem? then 1 else 0)
  }

  /** Items that own an entry of the context stack. */
  function Contexts(stack: Stack<Item>): nat {
    if stack.Empty? then 0 else Contexts(Pop(stack)) + (if Top(stack).MethodItem? then 1 else 0)
  }

  /** The top item has between 0 and its arity operands on top of those of the items below. */
  ghost predicate Framed(ms: Platform, stack: Stack<Item>, ops: seq<Operand>)
    decreases stack, 0
  {
    if stack.Empty? then |ops| == 1 && ops[0].Object?
    else
      match Top(stack)
      case MethodItem(want) => if Pop(stack).Empty? then ops == [] && want else Accepts(ms, Pop(stack), ops, want)
      case LoopItem(frame, iterating, _) =>
        frame <= |ops| <= frame + 1 && (iterating ==> |ops| == frame) && Accepts(ms, Pop(stack), ops[..frame], false)
      case CondItem(frame, branch, _, _, _) =>
        frame <= |ops| <= frame + 1 && (branch ==> |ops| == frame) && Accepts(ms, Pop(stack), ops[..frame], false)
      case OpItem(frame, opcode, want) =>
        IsOperator(opcode) && frame <= |ops| <= frame + Arity(opcode) && Accepts(ms, Pop(stack), ops[..frame], want)
      case InvokeItem(frame, argc, want) =>
        && argc <= 7 && frame < |ops| <= frame + 1 + argc
        && ops[frame].MethodName? && ops[frame].name in ms.nodes
        && Accepts(ms, Pop(stack), ops[..frame], want)
      case ReturnItem(frame) => frame <= |ops| <= frame + 1 && Accepts(ms, Pop(stack), ops[..frame], false)
  }

  /** The top item waits for a computation that leaves one more operand (result) or none. */
  ghost predicate Accepts(ms: Platform, stack: Stack<Item>, ops: seq<Operand>, result: bool)
    decreases stack, 1
  {
    && stack.Entry?
    && Framed(ms, stack, ops)
    && match Top(stack)
       case MethodItem(_) => !result
       case LoopItem(frame, iterating, _) => |ops| == frame && (iterating ==> !result)
       case CondItem(frame, branch, _, _, _) => |ops| == frame && (branch ==> !result)
       case OpItem(frame, opcode, _) => |ops| < frame + Arity(opcode)
       case InvokeItem(frame, argc, _) => |ops| < frame + 1 + argc
       case ReturnItem(frame) => |ops| == frame
  }

  ghost predicate Inv(ms: Platform, s: State) {
    && Framed(ms, s.stack, s.ops)
    && Depth(s.blk) == Scopes(s.stack)
    && Depth(s.ctx) == Contexts(s.stack)
  }

  lemma {:induction false} HasMethod(ms: Platform, stack: Stack<Item>, ops: seq<Operand>)
    requires stack.Entry? && Framed(ms, stack, ops)
    ensures Scopes(stack) >= 1 && Contexts(stack) >= 1
    decreases stack
  {
    match Top(stack)
    case MethodItem(_) =>
    case LoopItem(frame, _, _) => HasMethod(ms, Pop(stack), ops[..frame]);
    case CondItem(frame, _, _, _, _) => HasMethod(ms, Pop(stack), ops[..frame]);
    case OpItem(frame, _, _) => HasMethod(ms, Pop(stack), ops[..frame]);
    case InvokeItem(frame, _, _) => HasMethod(ms, Pop(stack), ops[..frame]);
    case ReturnItem(frame) => HasMethod(ms, Pop(stack), ops[..frame]);
  }

  lemma BelowTop(ms: Platform, stack: Stack<Item>, ops: seq<Operand>)
    requires stack.Entry? && Framed(ms, stack, ops)
    requires Top(stack).MethodItem? ==> Pop(stack).Entry?
    ensures var i := Top(stack);
            var below := if i.MethodItem? then ops else ops[..i.frame];
            Framed(ms, Pop(stack), below)
            && Accepts(ms, Pop(stack), below, (i.OpItem? || i.InvokeItem? || i.MethodItem?) && i.wantResult)
  {
  }

  /** Once its predicate is consumed, a loop or condition may change its own state. */
  lemma Turn(ms: Platform, stack: Stack<Item>, ops: seq<Operand>, i: Item)
    requires stack.Entry? && Framed(ms, stack, ops)
    requires (Top(stack).LoopItem? && i.LoopItem?) || (Top(stack).CondItem? && i.CondItem?)
    requires Top(stack).frame == i.frame
    ensures var below := ops[..i.frame];
            Framed(ms, Push(Pop(stack), i), below) && Framed(ms, Pop(stack), below)
    ensures Scopes(Push(Pop(stack), i)) == Scopes(stack) && Contexts(Push(Pop(stack), i)) == Contexts(stack)
  {
    BelowTop(ms, stack, ops);
    assert ops[..i.frame][..i.frame] == ops[..i.frame];
  }

  /** A finished computation hands its result to the item that waits for it. */
  lemma Deliver(ms: Platform, stack: Stack<Item>, ops: seq<Operand>, o: Operand)
    requires Accepts(ms, stack, ops, true)
    ensures Framed(ms, stack, ops + [o])
  {
    var more := ops + [o];
    match Top(stack)
    case MethodItem(_) =>
    case LoopItem(frame, _, _) => assert more[..frame] == ops[..frame];
    case CondItem(frame, _, _, _, _) => assert more[..frame] == ops[..frame];
    case OpItem(frame, _, _) => assert more[..frame] == ops[..frame];
    case InvokeItem(frame, _, _) => assert more[..frame] == ops[..frame];
    case ReturnItem(frame) => assert more[..frame] == ops[..frame];
  }

  /** A state that parses in a mode can take what that mode produces. */
  ghost predicate Parsing(ms: Platform, s: State, mode: Mode) {
    Inv(ms, s) && Accepts(ms, s.stack, s.ops, mode != ExecMode)
  }

  lemma NoResultNeeded(ms: Platform, stack: Stack<Item>, ops: seq<Operand>, result: bool)
    requires Accepts(ms, stack, ops, result)
    ensures Accepts(ms, stack, ops, false)
  {
  }

  /** No turn breaks the stacks: it is a clean stop or a state that fits together again. */
  ghost predicate Sound(ms: Platform, o: Outcome) {
    match o
    case Stop(f) => f != Corrupt
    case Next(s) => Inv(ms, s)
  }

  lemma {:induction false} UnwindToMethodKeeps(ms: Platform, s: State)
    requires Accepts(ms, s.stack, s.ops, false) && Depth(s.blk) == Scopes(s.stack) && Depth(s.ctx) == Contexts(s.stack)
    ensures Sound(ms, UnwindToMethod(s))
    decreases s.stack
  {
    if Top(s.stack).LoopItem? || Top(s.stack).CondItem? {
      assert s.ops[..Top(s.stack).frame] == s.ops;
      UnwindToMethodKeeps(ms, PopScope(s));
    }
  }

  lemma {:induction false} UnwindToLoopKeeps(ms: Platform, s: State)
    requires Accepts(ms, s.stack, s.ops, false) && Depth(s.blk) == Scopes(s.stack) && Depth(s.ctx) == Contexts(s.stack)
    ensures Sound(ms, UnwindToLoop(s))
    ensures UnwindToLoop(s).Next? ==> Accepts(ms, UnwindToLoop(s).s.stack, s.ops, false)
    decreases s.stack
  {
    if Top(s.stack).CondItem? {
      assert s.ops[..Top(s.stack).frame] == s.ops;
      UnwindToLoopKeeps(ms, PopScope(s));
    }
  }

  lemma PushedItem(ms: Platform, s: State, i: Item)
    requires Accepts(ms, s.stack, s.ops, if i.OpItem? then i.wantResult else false)
    requires i.OpItem? || i.LoopItem? || i.CondItem? || i.ReturnItem?
    requires i.frame == |s.ops|
    requires i.OpItem? ==> IsOperator(i.opcode)
    ensures Framed(ms, Push(s.stack, i), s.ops)
  {
    assert s.ops[..|s.ops|] == s.ops;
  }

  lemma ParseNameKeeps(ms: Platform, s: State, mode: Mode)
    requires Parsing(ms, s, mode) && Ready(s)
    ensures Sound(ms, ParseName(ms, s, mode))
  {
    var code, pc := Top(s.ctx).code, Top(s.blk).pc;
    if pc < |code| && IsLeadName(code[pc]) && pc + 4 <= |code| && code[pc..pc + 4] in ms.nodes && ms.nodes[code[pc..pc + 4]].argc <= 7 {
      var name := code[pc..pc + 4];
      if mode == ReferenceMode {
        Deliver(ms, s.stack, s.ops, MethodName(name));
      } else {
        assert (s.ops + [MethodName(name)])[..|s.ops|] == s.ops;
      }
    }
  }

  lemma ParseCellKeeps(ms: Platform, s: State, mode: Mode, cell: Operand)
    requires Parsing(ms, s, mode) && Ready(s)
    requires (cell.LocalName? && cell.index < 8) || (cell.ArgName? && cell.index < 7)
    ensures Sound(ms, ParseCell(s, mode, cell))
  {
    if mode == ReferenceMode {
      Deliver(ms, s.stack, s.ops, cell);
    } else if mode == ObjectMode {
      Deliver(ms, s.stack, s.ops, Object(Load(cell, Top(s.ctx).inv).value));
    }
  }

  lemma ParseConstantKeeps(ms: Platform, s: State, mode: Mode, opcode: byte)
    requires Parsing(ms, s, mode) && Ready(s) && IsConstant(opcode)
    ensures Sound(ms, ParseConstant(s, mode, opcode))
  {
    var o := ParseConstant(s, mode, opcode);
    if o.Next? && mode != ExecMode {
      Deliver(ms, s.stack, s.ops, o.s.ops[|o.s.ops| - 1]);
    }
  }

  lemma ParseScopeKeeps(ms: Platform, s: State, mode: Mode)
    requires Parsing(ms, s, mode) && Ready(s)
    ensures Sound(ms, ParseWhile(s)) && Sound(ms, ParseIf(s))
  {
    NoResultNeeded(ms, s.stack, s.ops, mode != ExecMode);
    var w := ParseWhile(s);
    if w.Next? {
      PushedItem(ms, s, Top(w.s.stack));
    }
    var i := ParseIf(s);
    if i.Next? {
      PushedItem(ms, s, Top(i.s.stack));
    }
  }

  lemma LeaveLoopKeeps(ms: Platform, u: State)
    requires Inv(ms, u) && Accepts(ms, u.stack, u.ops, false) && Top(u.stack).LoopItem?
    ensures u.blk.Entry? && Inv(ms, PopScope(u))
  {
    HasMethod(ms, u.stack, u.ops);
    BelowTop(ms, u.stack, u.ops);
    assert u.ops[..Top(u.stack).frame] == u.ops;
  }

  lemma ParseLeaveKeeps(ms: Platform, s: State, mode: Mode, opcode: byte)
    requires Parsing(ms, s, mode) && Ready(s) && Top(s.blk).pc < |Top(s.ctx).code|
    requires opcode == CONTINUE_OP || opcode == BREAK_OP
    ensures Sound(ms, ParseOpcode(s, mode, opcode))
  {
    NoResultNeeded(ms, s.stack, s.ops, mode != ExecMode);
    UnwindToLoopKeeps(ms, s);
    if UnwindToLoop(s).Next? {
      LeaveLoopKeeps(ms, UnwindToLoop(s).s);
    }
  }

  lemma ParseOpcodeKeeps(ms: Platform, s: State, mode: Mode, opcode: byte)
    requires Parsing(ms, s, mode) && Ready(s) && Top(s.blk).pc < |Top(s.ctx).code|
    ensures Sound(ms, ParseOpcode(s, mode, opcode))
  {
    NoResultNeeded(ms, s.stack, s.ops, mode != ExecMode);
    if IsConstant(opcode) {
      ParseConstantKeeps(ms, s, mode, opcode);
    } else if LOCAL0_OP <= opcode < ARG0_OP {
      ParseCellKeeps(ms, s, mode, LocalName(opcode - LOCAL0_OP));
    } else if ARG0_OP <= opcode < ARG0_OP + 7 {
      ParseCellKeeps(ms, s, mode, ArgName(opcode - ARG0_OP));
    } else if IsOperator(opcode) {
      PushedItem(ms, s, OpItem(|s.ops|, opcode, mode != ExecMode));
    } else if opcode == RETURN_OP {
      PushedItem(ms, s, ReturnItem(|s.ops|));
    } else if opcode == WHILE_OP || opcode == IF_OP {
      ParseScopeKeeps(ms, s, mode);
    } else if opcode == CONTINUE_OP || opcode == BREAK_OP {
      ParseLeaveKeeps(ms, s, mode, opcode);
    }
  }

  lemma ParseKeeps(ms: Platform, s: State, mode: Mode)
    requires Parsing(ms, s, mode) && Ready(s)
    ensures Sound(ms, Parse(ms, s, mode))
  {
    var code, pc := Top(s.ctx).code, Top(s.blk).pc;
    if pc < Top(s.blk).limit && pc < |code| {
      if IsName(code[pc]) {
        ParseNameKeeps(ms, s, mode);
      } else {
        ParseOpcodeKeeps(ms, s, mode, code[pc]);
      }
    }
  }

  lemma ProcessOpKeeps(ms: Platform, s: State)
    requires Inv(ms, s) && Ready(s) && Top(s.stack).OpItem?
    ensures var i := Top(s.stack); Sound(ms, ProcessOp(ms, s, i.frame, i.opcode, i.wantResult))
  {
    var i := Top(s.stack);
    var k := |s.ops| - i.frame;
    if k < Arity(i.opcode) {
      ParseKeeps(ms, s, OperandMode(i.opcode, k));
    } else {
      BelowTop(ms, s.stack, s.ops);
      assert s.ops[..|s.ops| - k] == s.ops[..i.frame];
      var r := ms.reduce(i.opcode, s.ops[i.frame..], Top(s.ctx).inv);
      if r.Reduced? && i.wantResult {
        Deliver(ms, Pop(s.stack), s.ops[..i.frame], Object(r.result));
      }
    }
  }

  lemma ProcessInvokeKeeps(ms: Platform, s: State)
    requires Inv(ms, s) && Ready(s) && Top(s.stack).InvokeItem?
    ensures var i := Top(s.stack); Sound(ms, ProcessInvoke(ms, s, i.frame, i.argc, i.wantResult))
  {
    var i := Top(s.stack);
    if |s.ops| - i.frame < i.argc + 1 {
      ParseKeeps(ms, s, ObjectMode);
    }
  }

  /** A method that ends hands its result to whatever invoked it. */
  lemma FinishMethodKeeps(ms: Platform, u: State, v: Value)
    requires Inv(ms, u) && Ready(u) && Top(u.stack).MethodItem?
    ensures Inv(ms, PushResult(PopMethod(u), Top(u.stack).wantResult, v))
  {
    if Pop(u.stack).Entry? {
      BelowTop(ms, u.stack, u.ops);
      if Top(u.stack).wantResult {
        Deliver(ms, Pop(u.stack), u.ops, Object(v));
      }
    }
  }

  lemma ProcessReturnKeeps(ms: Platform, s: State)
    requires Inv(ms, s) && Ready(s) && Top(s.stack).ReturnItem?
    ensures Sound(ms, ProcessReturn(ms, s, Top(s.stack).frame))
  {
    var frame := Top(s.stack).frame;
    if |s.ops| == frame {
      ParseKeeps(ms, s, ObjectMode);
    } else if s.ops[|s.ops| - 1].Object? {
      assert s.ops[..|s.ops| - 1] == s.ops[..frame];
      var s0 := PopItem(DropOperands(s, 1));
      UnwindToMethodKeeps(ms, s0);
      var u := UnwindToMethod(s0);
      if u.Next? {
        HasMethod(ms, u.s.stack, u.s.ops);
        FinishMethodKeeps(ms, u.s, s.ops[|s.ops| - 1].v);
      }
    }
  }

  lemma ProcessLoopKeeps(ms: Platform, s: State)
    requires Inv(ms, s) && Ready(s) && Top(s.stack).LoopItem?
    ensures var i := Top(s.stack); Sound(ms, ProcessLoop(ms, s, i.frame, i.iterating, i.pred))
  {
    var i := Top(s.stack);
    if i.iterating && !AtEnd(s) {
      ParseKeeps(ms, s, ExecMode);
    } else if !i.iterating && |s.ops| == i.frame {
      ParseKeeps(ms, s, ObjectMode);
    } else {
      Turn(ms, s.stack, s.ops, i.(iterating := !i.iterating));
      assert s.ops[..i.frame] == if i.iterating then s.ops else s.ops[..|s.ops| - 1];
    }
  }

  lemma ProcessCondKeeps(ms: Platform, s: State)
    requires Inv(ms, s) && Ready(s) && Top(s.stack).CondItem?
    ensures var i := Top(s.stack); Sound(ms, ProcessCond(ms, s, i.frame, i.branch, i.hasElse, i.elsePc, i.elseLimit))
  {
    var i := Top(s.stack);
    if i.branch && !AtEnd(s) {
      ParseKeeps(ms, s, ExecMode);
    } else if !i.branch && |s.ops| == i.frame {
      ParseKeeps(ms, s, ObjectMode);
    } else {
      Turn(ms, s.stack, s.ops, i.(branch := true));
      assert s.ops[..i.frame] == if i.branch then s.ops else s.ops[..|s.ops| - 1];
    }
  }

  lemma ProcessMethodKeeps(ms: Platform, s: State)
    requires Inv(ms, s) && Ready(s) && Top(s.stack).MethodItem?
    ensures Sound(ms, ProcessMethod(ms, s, Top(s.stack).wantResult))
  {
    if AtEnd(s) {
      FinishMethodKeeps(ms, s, Integer(0));
    } else {
      assert Accepts(ms, s.stack, s.ops, false);
      ParseKeeps(ms, s, ExecMode);
    }
  }

  /** Every turn keeps the invariant, whatever bytes it reads. */
  lemma ProcessKeepsInvariant(ms: Platform, s: State)
    requires Inv(ms, s) && s.stack.Entry?
    ensures Sound(ms, Process(ms, s))
  {
    HasMethod(ms, s.stack, s.ops);
    match Top(s.stack)
    case MethodItem(_) => ProcessMethodKeeps(ms, s);
    case OpItem(_, _, _) => ProcessOpKeeps(ms, s);
    case InvokeItem(_, _, _) => ProcessInvokeKeeps(ms, s);
    case ReturnItem(_) => ProcessReturnKeeps(ms, s);
    case LoopItem(_, _, _) => ProcessLoopKeeps(ms, s);
    case CondItem(_, _, _, _, _) => ProcessCondKeeps(ms, s);
  }

  /** At most n turns of the loop in lai_exec_run(). */
  function Run(turn: Turner, s: State, n: nat): Outcome
    decreases n
  {
    if n == 0 || s.stack.Empty? then Next(s)
    else
      match turn(s)
      case Stop(f) => Stop(f)
      case Next(s') => Run(turn, s', n - 1)
  }

  /** One turn, as a value. */
  type Turner = State -> Outcome

  function LaiTurn(ms: Platform): Turner {
    (s: State) => if s.stack.Empty? then Next(s) else Process(ms, s)
  }

  /** The state in which lai_eval_args() starts the interpreter. */
  function Start(code: seq<byte>, inv: Invocation): State {
    State(Entry(Context(code, inv), Empty), Entry(Block(0, |code|), Empty), Entry(MethodItem(true), Empty), [])
  }

  lemma {:induction false} RunKeepsInvariant(ms: Platform, s: State, n: nat)
    requires Inv(ms, s)
    ensures Sound(ms, Run(LaiTurn(ms), s, n))
    decreases n
  {
    if n > 0 && s.stack.Entry? {
      ProcessKeepsInvariant(ms, s);
      var o := Process(ms, s);
      if o.Next? {
        RunKeepsInvariant(ms, o.s, n - 1);
      }
    }
  }

  /**
   The internal assertions of the interpreter and those of lai_eval_args() after the run hold
   for every method code: no run finds its stacks corrupt, and a run that ends has emptied
   the context, block and execution stacks and left exactly one object.
   */
  lemma EvalNeverCorrupt(ms: Platform, code: seq<byte>, inv: Invocation, n: nat)
    ensures var o := Run(LaiTurn(ms), Start(code, inv), n);
            && o != Stop(Corrupt)
            && (o.Next? && o.s.stack.Empty? ==>
                  o.s.ctx.Empty? && o.s.blk.Empty? && |o.s.ops| == 1 && o.s.ops[0].Object?)
  {
    var s := Start(code, inv);
    RunKeepsInvariant(ms, s, n);
  }
}
