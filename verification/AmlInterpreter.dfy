/**
 The interpreter as it is built: four stacks that every turn updates in place. Each method
 is proved to perform the transition that AmlMachine gives as a function of the state.
 */
module AmlInterpreter {
  import opened AmlTypes
  import M = AmlMachine
  import I = AmlInvariant

  /** A method that stops with f has performed Stop(f), any other leaves the state of Next. */
  predicate Performed(o: Outcome, r: Option<Fault>, s: State) {
    match o
    case Next(s1) => r == None && s == s1
    case Stop(f) => r == Some(f)
  }

  class Interpreter {
    var ctx: Stack<Context>
    var blk: Stack<Block>
    var stack: Stack<Item>
    var ops: seq<Operand>

    function State(): State
      reads this
    {
      AmlTypes.State(ctx, blk, stack, ops)
    }

    /** lai_eval_args(): one method item that wants a result. */
    constructor (code: seq<byte>, inv: Invocation)
      ensures State() == I.Start(code, inv)
    {
      ctx := Entry(Context(code, inv), Empty);
      blk := Entry(Block(0, |code|), Empty);
      stack := Entry(MethodItem(true), Empty);
      ops := [];
    }

    /** lai_exec_run(), cut off after n turns. */
    method Run(ms: Platform, n: nat) returns (r: Option<Fault>)
      modifies this
      ensures Performed(I.Run(I.LaiTurn(ms), old(State()), n), r, State())
    {
      r := None;
      var k: nat := n;
      while k > 0 && stack.Entry?
        invariant r == None && I.Run(I.LaiTurn(ms), State(), k) == I.Run(I.LaiTurn(ms), old(State()), n)
        decreases k
      {
        ghost var s := State();
        r := Process(ms);
        assert I.LaiTurn(ms)(s) == M.Process(ms, s);
        if r.Some? {
          return;
        }
        k := k - 1;
      }
    }

    /** lai_exec_process() */
    method Process(ms: Platform) returns (r: Option<Fault>)
      requires stack.Entry?
      modifies this
      ensures Performed(M.Process(ms, old(State())), r, State())
    {
      if ctx.Empty? || blk.Empty? {
        return Some(Corrupt);
      }
      if blk.top.pc > blk.top.limit {
        return Some(Panic);
      }
      match stack.top
      case MethodItem(_) => r := ProcessMethod(ms);
      case OpItem(_, _, _) => r := ProcessOp(ms);
      case InvokeItem(_, _, _) => r := ProcessInvoke(ms);
      case ReturnItem(_) => r := ProcessReturn(ms);
      case LoopItem(_, _, _) => r := ProcessLoop(ms);
      case CondItem(_, _, _, _, _) => r := ProcessCond(ms);
    }

    method ProcessMethod(ms: Platform) returns (r: Option<Fault>)
      requires M.Ready(State()) && stack.top.MethodItem?
      modifies this
      ensures Performed(M.ProcessMethod(ms, old(State()), old(stack.top.wantResult)), r, State())
    {
      if blk.top.pc != blk.top.limit {
        r := Parse(ms, ExecMode);
      } else if ops != [] {
        r := Some(Panic);
      } else {
        r := None;
        var want := stack.top.wantResult;
        PopFrame();
        if want {
          ops := ops + [Object(Integer(0))];
        }
      }
    }

    /** A method item leaves with its block and its context. */
    method PopFrame()
      requires M.Ready(State())
      modifies this
      ensures State() == M.PopMethod(old(State()))
    {
      ctx := ctx.below;
      blk := blk.below;
      stack := stack.below;
    }

    method ProcessOp(ms: Platform) returns (r: Option<Fault>)
      requires M.Ready(State()) && stack.top.OpItem?
      modifies this
      ensures var i := old(stack.top);
              Performed(M.ProcessOp(ms, old(State()), i.frame, i.opcode, i.wantResult), r, State())
    {
      var item := stack.top;
      var k := |ops| - item.frame;
      if k < 0 || k > M.Arity(item.opcode) || !M.IsOperator(item.opcode) {
        r := Some(Corrupt);
      } else if k < M.Arity(item.opcode) {
        r := Parse(ms, M.OperandMode(item.opcode, k));
      } else {
        match ms.reduce(item.opcode, ops[item.frame..], ctx.top.inv)
        case Stuck(f) => r := Some(f);
        case Reduced(v, inv) =>
          r := None;
          ctx := Entry(ctx.top.(inv := inv), ctx.below);
          ops := ops[..|ops| - k];
          stack := stack.below;
          if item.wantResult {
            ops := ops + [Object(v)];
          }
      }
    }

    method ProcessInvoke(ms: Platform) returns (r: Option<Fault>)
      requires M.Ready(State()) && stack.top.InvokeItem?
      modifies this
      ensures var i := old(stack.top);
              Performed(M.ProcessInvoke(ms, old(State()), i.frame, i.argc, i.wantResult), r, State())
    {
      var item := stack.top;
      var k := |ops| - item.frame;
      if k < 1 || k > item.argc + 1 || item.argc > 7 {
        r := Some(Corrupt);
      } else if k < item.argc + 1 {
        r := Parse(ms, ObjectMode);
      } else if !ops[item.frame].MethodName? || ops[item.frame].name !in ms.nodes {
        r := Some(Corrupt);
      } else if exists i :: item.frame < i < |ops| && !ops[i].Object? {
        r := Some(Panic);
      } else {
        r := None;
        var code := ms.nodes[ops[item.frame].name].code;
        ctx := Entry(Context(code, M.Arguments(ops[item.frame + 1..])), ctx);
        ops := ops[..|ops| - k];
        blk := Entry(Block(0, |code|), blk);
        stack := Entry(MethodItem(item.wantResult), stack.below);
      }
    }

    method ProcessReturn(ms: Platform) returns (r: Option<Fault>)
      requires M.Ready(State()) && stack.top.ReturnItem?
      modifies this
      ensures Performed(M.ProcessReturn(ms, old(State()), old(stack.top.frame)), r, State())
    {
      var k := |ops| - stack.top.frame;
      if k < 0 || k > 1 {
        r := Some(Corrupt);
      } else if k == 0 {
        r := Parse(ms, ObjectMode);
      } else if !ops[|ops| - 1].Object? {
        r := Some(Panic);
      } else {
        var v := ops[|ops| - 1].v;
        ops := ops[..|ops| - 1];
        stack := stack.below;
        r := LeaveToMethod();
        if r.None? {
          if blk.Empty? || ctx.Empty? {
            return Some(Corrupt);
          }
          var want := stack.top.wantResult;
          PopFrame();
          if want {
            ops := ops + [Object(v)];
          }
        }
      }
    }

    /** Pops loops and conditions until a method item is on top. */
    method LeaveToMethod() returns (r: Option<Fault>)
      modifies this
      ensures Performed(M.UnwindToMethod(old(State())), r, State())
    {
      while stack.Entry? && !stack.top.MethodItem?
        invariant M.UnwindToMethod(State()) == M.UnwindToMethod(old(State()))
        decreases stack
      {
        if !stack.top.LoopItem? && !stack.top.CondItem? {
          return Some(Panic);
        }
        if blk.Empty? {
          return Some(Corrupt);
        }
        stack := stack.below;
        blk := blk.below;
      }
      r := if stack.Empty? then Some(Panic) else None;
    }

    /** Pops conditions until a loop item is on top. */
    method LeaveToLoop() returns (r: Option<Fault>)
      modifies this
      ensures Performed(M.UnwindToLoop(old(State())), r, State())
    {
      while stack.Entry? && !stack.top.LoopItem?
        invariant M.UnwindToLoop(State()) == M.UnwindToLoop(old(State()))
        decreases stack
      {
        if !stack.top.CondItem? {
          return Some(Panic);
        }
        if blk.Empty? {
          return Some(Corrupt);
        }
        stack := stack.below;
        blk := blk.below;
      }
      r := if stack.Empty? then Some(Panic) else None;
    }

    method ProcessLoop(ms: Platform) returns (r: Option<Fault>)
      requires M.Ready(State()) && stack.top.LoopItem?
      modifies this
      ensures var i := old(stack.top);
              Performed(M.ProcessLoop(ms, old(State()), i.frame, i.iterating, i.pred), r, State())
    {
      var item := stack.top;
      r := None;
      if item.iterating {
        if blk.top.pc == blk.top.limit {
          stack := Entry(item.(iterating := false), stack.below);
          blk := Entry(blk.top.(pc := item.pred), blk.below);
        } else {
          r := Parse(ms, ExecMode);
        }
      } else {
        var k := |ops| - item.frame;
        if k < 0 || k > 1 {
          r := Some(Corrupt);
        } else if k == 0 {
          r := Parse(ms, ObjectMode);
        } else {
          match M.GetInteger(ops[|ops| - 1])
          case None => r := Some(Panic);
          case Some(n) =>
            ops := ops[..|ops| - 1];
            if n != 0 {
              stack := Entry(item.(iterating := true), stack.below);
            } else {
              blk := blk.below;
              stack := stack.below;
            }
        }
      }
    }

    method ProcessCond(ms: Platform) returns (r: Option<Fault>)
      requires M.Ready(State()) && stack.top.CondItem?
      modifies this
      ensures var i := old(stack.top);
              Performed(M.ProcessCond(ms, old(State()), i.frame, i.branch, i.hasElse, i.elsePc, i.elseLimit), r, State())
    {
      var item := stack.top;
      r := None;
      if item.branch {
        if blk.top.pc == blk.top.limit {
          blk := blk.below;
          stack := stack.below;
        } else {
          r := Parse(ms, ExecMode);
        }
      } else {
        var k := |ops| - item.frame;
        if k < 0 || k > 1 {
          r := Some(Corrupt);
        } else if k == 0 {
          r := Parse(ms, ObjectMode);
        } else {
          match M.GetInteger(ops[|ops| - 1])
          case None => r := Some(Panic);
          case Some(n) =>
            ops := ops[..|ops| - 1];
            if n == 0 && !item.hasElse {
              blk := blk.below;
              stack := stack.below;
            } else {
              stack := Entry(item.(branch := true), stack.below);
              if n == 0 {
                blk := Entry(Block(item.elsePc, item.elseLimit), blk.below);
              }
            }
        }
      }
    }

    /** lai_exec_parse() */
    method Parse(ms: Platform, mode: Mode) returns (r: Option<Fault>)
      requires M.Ready(State())
      modifies this
      ensures Performed(M.Parse(ms, old(State()), mode), r, State())
    {
      var code, pc := ctx.top.code, blk.top.pc;
      if pc >= blk.top.limit {
        r := Some(Panic);
      } else if pc >= |code| {
        r := Some(OutOfCode);
      } else if M.IsName(code[pc]) {
        r := ParseName(ms, mode);
      } else {
        r := ParseOpcode(mode, code[pc]);
      }
    }

    /** lai_exec_commit_pc() */
    method CommitPc(pc: nat)
      requires blk.Entry?
      modifies this
      ensures State() == M.CommitPc(old(State()), pc)
    {
      blk := Entry(blk.top.(pc := pc), blk.below);
    }

    method ParseName(ms: Platform, mode: Mode) returns (r: Option<Fault>)
      requires M.Ready(State())
      modifies this
      ensures Performed(M.ParseName(ms, old(State()), mode), r, State())
    {
      var code, pc := ctx.top.code, blk.top.pc;
      if pc >= |code| || !M.IsLeadName(code[pc]) {
        return Some(Unsupported);
      }
      if pc + 4 > |code| {
        return Some(OutOfCode);
      }
      var name := code[pc..pc + 4];
      if name !in ms.nodes {
        return Some(ErrorCode);
      }
      var argc := ms.nodes[name].argc;
      if argc > 7 {
        return Some(Unsupported);
      }
      r := None;
      CommitPc(pc + 4);
      if mode != ReferenceMode {
        stack := Entry(InvokeItem(|ops|, argc, mode != ExecMode), stack);
      }
      ops := ops + [MethodName(name)];
    }

    method ParseOpcode(mode: Mode, opcode: byte) returns (r: Option<Fault>)
      requires M.Ready(State()) && blk.top.pc < |ctx.top.code|
      modifies this
      ensures Performed(M.ParseOpcode(old(State()), mode, opcode), r, State())
    {
      var pc := blk.top.pc;
      r := None;
      if opcode == M.NOP_OP {
        CommitPc(pc + 1);
      } else if M.IsConstant(opcode) {
        r := ParseConstant(mode, opcode);
      } else if M.LOCAL0_OP <= opcode < M.ARG0_OP {
        r := ParseCell(mode, LocalName(opcode - M.LOCAL0_OP));
      } else if M.ARG0_OP <= opcode < M.ARG0_OP + 7 {
        r := ParseCell(mode, ArgName(opcode - M.ARG0_OP));
      } else if M.IsOperator(opcode) {
        CommitPc(pc + 1);
        stack := Entry(OpItem(|ops|, opcode, mode != ExecMode), stack);
      } else if opcode == M.RETURN_OP {
        CommitPc(pc + 1);
        stack := Entry(ReturnItem(|ops|), stack);
      } else if opcode == M.WHILE_OP {
        r := ParseWhile();
      } else if opcode == M.IF_OP {
        r := ParseIf();
      } else if opcode == M.CONTINUE_OP {
        r := LeaveToLoop();
      } else if opcode == M.BREAK_OP {
        r := LeaveToLoop();
        if r.None? {
          if blk.Empty? {
            return Some(Corrupt);
          }
          blk := blk.below;
          stack := stack.below;
        }
      } else {
        r := Some(if opcode == M.ELSE_OP then Panic else Unsupported);
      }
    }

    method ParseConstant(mode: Mode, opcode: byte) returns (r: Option<Fault>)
      requires M.Ready(State()) && M.IsConstant(opcode)
      modifies this
      ensures Performed(M.ParseConstant(old(State()), mode, opcode), r, State())
    {
      var code := ctx.top.code;
      var end := blk.top.pc + 1 + M.DataSize(opcode);
      if M.DataSize(opcode) > 0 && end > blk.top.limit {
        return Some(ErrorCode);
      }
      if end > |code| {
        return Some(OutOfCode);
      }
      var v := M.ConstantValue(opcode, code[end - M.DataSize(opcode)..end]);
      if mode == ReferenceMode && opcode != M.ZERO_OP {
        return Some(Panic);
      }
      r := None;
      CommitPc(end);
      if mode == ObjectMode {
        ops := ops + [Object(Integer(v))];
      } else if mode == ReferenceMode {
        ops := ops + [NullName];
      }
    }

    method ParseCell(mode: Mode, cell: Operand) returns (r: Option<Fault>)
      requires M.Ready(State())
      modifies this
      ensures Performed(M.ParseCell(old(State()), mode, cell), r, State())
    {
      if mode == ReferenceMode {
        r := None;
        CommitPc(blk.top.pc + 1);
        ops := ops + [cell];
      } else {
        match M.Load(cell, ctx.top.inv)
        case None => r := Some(Corrupt);
        case Some(v) =>
          if mode == ObjectMode {
            r := None;
            CommitPc(blk.top.pc + 1);
            ops := ops + [Object(v)];
          } else {
            r := Some(Panic);
          }
      }
    }

    method ParseWhile() returns (r: Option<Fault>)
      requires M.Ready(State())
      modifies this
      ensures Performed(M.ParseWhile(old(State())), r, State())
    {
      var pc := blk.top.pc;
      var size, body;
      r, size, body := ParseVarint(pc + 1);
      if r.None? {
        CommitPc(pc + 1 + size);
        blk := Entry(Block(body, pc + 1 + size), blk);
        stack := Entry(LoopItem(|ops|, false, body), stack);
      }
    }

    /** lai_parse_varint(): the low nibble, then whole bytes shifted into place one by one. */
    method ParseVarint(pc: nat) returns (r: Option<Fault>, n: nat, next: nat)
      requires M.Ready(State())
      ensures match M.ParseVarint(ctx.top.code, pc, blk.top.limit)
              case None => r == Some(ErrorCode)
              case Some((n1, next1)) => r == None && n == n1 && next == next1
    {
      var code := ctx.top.code;
      n, next := 0, pc;
      if pc + 1 > blk.top.limit || pc >= |code| {
        return Some(ErrorCode), 0, pc;
      }
      var extra := M.FollowingBytes(code[pc]);
      if pc + 1 + extra > blk.top.limit || pc + 1 + extra > |code| {
        return Some(ErrorCode), 0, pc;
      }
      r := None;
      n, next := if extra == 0 then code[pc] else code[pc] % 0x10, pc + 1;
      var place: nat, i: nat := 0x10, 0;
      ghost var total := n + place * M.WholeBytes(code, next, extra);
      while i < extra
        invariant 0 <= i <= extra && next == pc + 1 + i
        invariant n + place * M.WholeBytes(code, next, extra - i) == total
      {
        Shifted(n, place, code[next], M.WholeBytes(code, next + 1, extra - i - 1));
        n, place := n + place * code[next], 0x100 * place;
        next, i := next + 1, i + 1;
      }
    }

    static lemma Shifted(n: nat, place: nat, b: byte, rest: nat)
      ensures n + place * (b + 0x100 * rest) == (n + place * b) + (0x100 * place) * rest
    {
    }

    method ParseIf() returns (r: Option<Fault>)
      requires M.Ready(State())
      modifies this
      ensures Performed(M.ParseIf(old(State())), r, State())
    {
      var code, pc, limit := ctx.top.code, blk.top.pc, blk.top.limit;
      var size, body;
      r, size, body := ParseVarint(pc + 1);
      if r.Some? {
        return;
      }
      var end := pc + 1 + size;
      if end < limit && end >= |code| {
        return Some(OutOfCode);
      }
      if end < limit && code[end] == M.ELSE_OP {
        var elseSize, elsePc;
        r, elseSize, elsePc := ParseVarint(end + 1);
        if r.Some? {
          return;
        }
        CommitPc(end + 1 + elseSize);
        blk := Entry(Block(body, end), blk);
        stack := Entry(CondItem(|ops|, false, true, elsePc, end + 1 + elseSize), stack);
      } else {
        CommitPc(end);
        blk := Entry(Block(body, end), blk);
        stack := Entry(CondItem(|ops|, false, false, 0, end + 1), stack);
      }
    }
  }
}
