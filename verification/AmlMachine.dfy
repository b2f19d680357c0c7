/**
 The explicit-stack interpreter of exec.c: one call of Process is one turn of the loop in
 lai_exec_run(). Functions give the effect of a turn on the whole state; the class
 Interpreter performs it in place on its four stacks.
 */
module AmlMachine {
  import opened AmlTypes
  import opened Bits

  const ZERO_OP: byte := 0x00
  const ONE_OP: byte := 0x01
  const BYTEPREFIX: byte := 0x0A
  const WORDPREFIX: byte := 0x0B
  const DWORDPREFIX: byte := 0x0C
  const QWORDPREFIX: byte := 0x0E
  const LOCAL0_OP: byte := 0x60
  const ARG0_OP: byte := 0x68
  const STORE_OP: byte := 0x70
  const ADD_OP: byte := 0x72
  const SUBTRACT_OP: byte := 0x74
  const INCREMENT_OP: byte := 0x75
  const DECREMENT_OP: byte := 0x76
  const MULTIPLY_OP: byte := 0x77
  const DIVIDE_OP: byte := 0x78
  const SHL_OP: byte := 0x79
  const SHR_OP: byte := 0x7A
  const AND_OP: byte := 0x7B
  const NAND_OP: byte := 0x7C
  const OR_OP: byte := 0x7D
  const NOR_OP: byte := 0x7E
  const XOR_OP: byte := 0x7F
  const NOT_OP: byte := 0x80
  const FINDSETLEFTBIT_OP: byte := 0x81
  const FINDSETRIGHTBIT_OP: byte := 0x82
  const MOD_OP: byte := 0x85
  const LAND_OP: byte := 0x90
  const LOR_OP: byte := 0x91
  const LNOT_OP: byte := 0x92
  const LEQUAL_OP: byte := 0x93
  const LGREATER_OP: byte := 0x94
  const LLESS_OP: byte := 0x95
  const COPYOBJECT_OP: byte := 0x9D
  const CONTINUE_OP: byte := 0x9F
  const IF_OP: byte := 0xA0
  const ELSE_OP: byte := 0xA1
  const WHILE_OP: byte := 0xA2
  const NOP_OP: byte := 0xA3
  const RETURN_OP: byte := 0xA4
  const BREAK_OP: byte := 0xA5
  const ONES_OP: byte := 0xFF

  const ALL_ONES: word := 0xFFFF_FFFF_FFFF_FFFF

  // ------------------------------------------------------------------ operators

  predicate IsBinary(opcode: byte) {
    opcode in {ADD_OP, SUBTRACT_OP, MOD_OP, MULTIPLY_OP, AND_OP, OR_OP, XOR_OP, SHR_OP, SHL_OP, NAND_OP, NOR_OP}
  }

  predicate IsUnary(opcode: byte) {
    opcode in {STORE_OP, COPYOBJECT_OP, NOT_OP, FINDSETLEFTBIT_OP, FINDSETRIGHTBIT_OP}
  }

  predicate IsLogical(opcode: byte) {
    opcode in {LAND_OP, LOR_OP, LEQUAL_OP, LLESS_OP, LGREATER_OP}
  }

  predicate IsOperator(opcode: byte) {
    IsBinary(opcode) || IsUnary(opcode) || IsLogical(opcode) || opcode in {DIVIDE_OP, INCREMENT_OP, DECREMENT_OP, LNOT_OP}
  }

  /** Number of operands parsed in object mode; they come first in op_arg_modes. */
  function Inputs(opcode: byte): nat {
    if IsBinary(opcode) || IsLogical(opcode) || opcode == DIVIDE_OP then 2
    else if opcode in {INCREMENT_OP, DECREMENT_OP} then 0
    else 1
  }

  /** Number of operands parsed in reference mode. */
  function OperatorTargets(opcode: byte): nat {
    if IsLogical(opcode) || opcode == LNOT_OP then 0
    else if opcode == DIVIDE_OP then 2
    else 1
  }

  function Arity(opcode: byte): nat {
    Inputs(opcode) + OperatorTargets(opcode)
  }

  function OperandMode(opcode: byte, k: nat): Mode {
    if k < Inputs(opcode) then ObjectMode else ReferenceMode
  }

  function Wrap(x: int): word {
    x % WORD_SIZE
  }

  lemma WordWidth()
    ensures Pow2(64) == WORD_SIZE
  {
    assert Pow2(8) == 256;
    assert Pow2(16) == 65536;
    assert Pow2(24) == 0x100_0000;
    assert Pow2(32) == 0x1_0000_0000;
    assert Pow2(40) == 0x100_0000_0000;
    assert Pow2(48) == 0x1_0000_0000_0000;
    assert Pow2(56) == 0x100_0000_0000_0000;
  }

  function AndWord(a: word, b: word): word {
    WordWidth(); BitwiseFits(a, b, 64); And(a, b)
  }

  function OrWord(a: word, b: word): word {
    WordWidth(); BitwiseFits(a, b, 64); Or(a, b)
  }

  function XorWord(a: word, b: word): word {
    WordWidth(); BitwiseFits(a, b, 64); Xor(a, b)
  }

  function NotWord(a: word): word {
    ALL_ONES - a
  }

  function ShlWord(a: word, n: nat): word {
    WordWidth(); LowFits(Shl(a, n), 64); Low(Shl(a, n), 64)
  }

  lemma {:induction false} ShrShrinks(x: nat, n: nat)
    ensures Shr(x, n) <= x
  {
    if n > 0 {
      ShrShrinks(x / 2, n - 1);
    }
  }

  function ShrWord(a: word, n: nat): word {
    ShrShrinks(a, n); Shr(a, n)
  }

  /** The arithmetic of the binary operators; None where the C expression is undefined. */
  function Compute(opcode: byte, a: word, b: word): Option<word>
    requires IsBinary(opcode)
  {
    if opcode == ADD_OP then Some(Wrap(a + b))
    else if opcode == SUBTRACT_OP then Some(Wrap(a - b))
    else if opcode == MULTIPLY_OP then Some(Wrap(a * b))
    else if opcode == MOD_OP then if b == 0 then None else Some(a % b)
    else if opcode == AND_OP then Some(AndWord(a, b))
    else if opcode == OR_OP then Some(OrWord(a, b))
    else if opcode == XOR_OP then Some(XorWord(a, b))
    else if opcode == NAND_OP then Some(NotWord(AndWord(a, b)))
    else if opcode == NOR_OP then Some(NotWord(OrWord(a, b)))
    else if b >= 64 then None
    else if opcode == SHL_OP then Some(ShlWord(a, b))
    else Some(ShrWord(a, b))
  }

  /** Right shifts until the value is 0, as FINDSETLEFTBIT_OP counts them. */
  function LeftShifts(a: nat): nat {
    if a == 0 then 0 else 1 + LeftShifts(a / 2)
  }

  /** Left shifts until all 64 bits are gone; `room` bits of a are still inside the word. */
  function RightShifts(a: nat, room: nat): nat
    requires a < Pow2(room)
    decreases room
  {
    if a == 0 || room == 0 then 0
    else Fits(a, room); LowFits(a, room - 1); 1 + RightShifts(Low(a, room - 1), room - 1)
  }

  lemma {:induction false} LeftShiftsBound(a: nat, n: nat)
    requires a < Pow2(n)
    ensures LeftShifts(a) <= n
  {
    if a > 0 && n > 0 {
      LeftShiftsBound(a / 2, n - 1);
    }
  }

  lemma {:induction false} RightShiftsBound(a: nat, room: nat)
    requires a < Pow2(room)
    ensures RightShifts(a, room) <= room
    decreases room
  {
    if a != 0 && room != 0 {
      LowFits(a, room - 1);
      RightShiftsBound(Low(a, room - 1), room - 1);
    }
  }

  function FindSetLeftBit(a: word): word {
    WordWidth(); LeftShiftsBound(a, 64); LeftShifts(a)
  }

  function FindSetRightBit(a: word): word {
    WordWidth(); RightShiftsBound(a, 64);
    var lsb := RightShifts(a, 64);
    if lsb == 0 then 0 else 65 - lsb
  }

  /** lai_exec_get_integer(): None stands for a panic. */
  function GetInteger(o: Operand): Option<word> {
    if o.Object? && o.v.Integer? then Some(o.v.n) else None
  }

  /** lai_operand_load() */
  function Load(o: Operand, inv: Invocation): Option<Value> {
    if o.ArgName? && o.index < 7 then Some(inv.arg[o.index])
    else if o.LocalName? && o.index < 8 then Some(inv.local[o.index])
    else None
  }

  /** lai_operand_mutate(): the new cells, None for a panic. */
  function Mutate(o: Operand, v: Value, inv: Invocation): Option<Invocation> {
    if o.NullName? then Some(inv)
    else if o.ArgName? && o.index < 7 then Some(inv.(arg := inv.arg[o.index := v]))
    else if o.LocalName? && o.index < 8 then Some(inv.(local := inv.local[o.index := v]))
    else None
  }

  function StoreResult(o: Operand, v: Value, inv: Invocation): Reduction {
    match Mutate(o, v, inv)
    case None => Stuck(Panic)
    case Some(inv') => Reduced(v, inv')
  }

  /** lai_exec_reduce_op() */
  function Reduce(opcode: byte, operands: seq<Operand>, inv: Invocation): Reduction
    requires IsOperator(opcode) && |operands| == Arity(opcode)
  {
    if IsBinary(opcode) then ReduceBinary(opcode, operands, inv)
    else if IsUnary(opcode) then ReduceUnary(opcode, operands, inv)
    else if IsLogical(opcode) then ReduceLogical(opcode, operands, inv)
    else if opcode == LNOT_OP then
      match GetInteger(operands[0])
      case None => Stuck(Panic)
      case Some(a) => Reduced(Integer(if a == 0 then 1 else 0), inv)
    else if opcode == DIVIDE_OP then ReduceDivide(operands, inv)
    else
      match Load(operands[0], inv)
      case Some(Integer(a)) =>
        StoreResult(operands[0], Integer(Wrap(if opcode == INCREMENT_OP then a + 1 else a - 1)), inv)
      case _ => Stuck(Panic)
  }

  function ReduceBinary(opcode: byte, operands: seq<Operand>, inv: Invocation): Reduction
    requires IsBinary(opcode) && |operands| == 3
  {
    match (GetInteger(operands[0]), GetInteger(operands[1]))
    case (Some(a), Some(b)) =>
      (match Compute(opcode, a, b)
       case None => Stuck(Undefined)
       case Some(c) => StoreResult(operands[2], Integer(c), inv))
    case _ => Stuck(Panic)
  }

  function ReduceUnary(opcode: byte, operands: seq<Operand>, inv: Invocation): Reduction
    requires IsUnary(opcode) && |operands| == 2
  {
    if opcode in {STORE_OP, COPYOBJECT_OP} then
      if operands[0].Object? then StoreResult(operands[1], operands[0].v, inv) else Stuck(Panic)
    else
      match GetInteger(operands[0])
      case None => Stuck(Panic)
      case Some(a) =>
        StoreResult(operands[1],
                    Integer(if opcode == NOT_OP then NotWord(a)
                            else if opcode == FINDSETLEFTBIT_OP then FindSetLeftBit(a)
                            else FindSetRightBit(a)),
                    inv)
  }

  function Truth(b: bool, yes: word): Value {
    Integer(if b then yes else 0)
  }

  function ReduceLogical(opcode: byte, operands: seq<Operand>, inv: Invocation): Reduction
    requires IsLogical(opcode) && |operands| == 2
  {
    if !operands[0].Object? || !operands[1].Object? then Stuck(Panic)
    else
      match (GetInteger(operands[0]), GetInteger(operands[1]))
      case (Some(a), Some(b)) =>
        Reduced(if opcode == LAND_OP then Truth(a != 0 && b != 0, 1)
                else if opcode == LOR_OP then Truth(a != 0 || b != 0, 1)
                else if opcode == LEQUAL_OP then Truth(a == b, ALL_ONES)
                else if opcode == LLESS_OP then Truth(a < b, ALL_ONES)
                else Truth(a > b, ALL_ONES), inv)
      case _ => Stuck(if opcode in {LAND_OP, LOR_OP} then Panic else ErrorCode)
  }

  /** DIVIDE_OP stores remainder and quotient, and leaves its own result zeroed. */
  function ReduceDivide(operands: seq<Operand>, inv: Invocation): Reduction
    requires |operands| == 4
  {
    match (GetInteger(operands[0]), GetInteger(operands[1]))
    case (Some(a), Some(b)) =>
      if b == 0 then Stuck(Undefined)
      else
        (match Mutate(operands[2], Integer(a % b), inv)
         case None => Stuck(Panic)
         case Some(inv1) =>
           match Mutate(operands[3], Integer(a / b), inv1)
           case None => Stuck(Panic)
           case Some(inv2) => Reduced(Uninitialised, inv2))
    case _ => Stuck(Panic)
  }

  /** The operators as lai_exec_reduce_op() gives them. */
  function LaiReducer(): Reducer {
    (opcode: byte, operands: seq<Operand>, inv: Invocation) =>
      if IsOperator(opcode) && |operands| == Arity(opcode) then Reduce(opcode, operands, inv) else Stuck(Unsupported)
  }

  // -------------------------------------------------------------------- decoding

  /** lai_is_name() */
  predicate IsName(c: byte) {
    0x30 <= c <= 0x39 || 0x41 <= c <= 0x5A || c in {0x5F, 0x5C, 0x5E, 0x2F, 0x2E}
  }

  /** First byte of a name that lai_amlname_parse() reads as exactly one segment. */
  predicate IsLeadName(c: byte) {
    IsName(c) && c !in {0x5C, 0x5E, 0x2F, 0x2E}
  }

  /** The two top bits of the first byte: how many bytes follow it. */
  function FollowingBytes(first: byte): nat {
    if first < 0x40 then 0 else if first < 0x80 then 1 else if first < 0xC0 then 2 else 3
  }

  /** n whole bytes from pc on, least significant first. */
  function WholeBytes(code: seq<byte>, pc: nat, n: nat): nat
    requires pc + n <= |code|
    decreases n
  {
    if n == 0 then 0 else code[pc] + 0x100 * WholeBytes(code, pc + 1, n - 1)
  }

  /** lai_parse_varint(): the number and the pc behind it. */
  function ParseVarint(code: seq<byte>, pc: nat, limit: nat): Option<(nat, nat)> {
    if pc + 1 > limit || pc >= |code| then None
    else
      var n := FollowingBytes(code[pc]);
      if pc + 1 + n > limit || pc + 1 + n > |code| then None
      else Some((if n == 0 then code[pc] else code[pc] % 0x10 + 0x10 * WholeBytes(code, pc + 1, n), pc + 1 + n))
  }

  function LittleEndian(bytes: seq<byte>): nat {
    if bytes == [] then 0 else bytes[0] + 0x100 * LittleEndian(bytes[1..])
  }

  predicate IsConstant(opcode: byte) {
    opcode in {ZERO_OP, ONE_OP, ONES_OP, BYTEPREFIX, WORDPREFIX, DWORDPREFIX, QWORDPREFIX}
  }

  /** Bytes of data behind a constant's opcode. */
  function DataSize(opcode: byte): nat {
    if opcode == BYTEPREFIX then 1
    else if opcode == WORDPREFIX then 2
    else if opcode == DWORDPREFIX then 4
    else if opcode == QWORDPREFIX then 8
    else 0
  }

  lemma LittleEndianBound(bytes: seq<byte>)
    requires |bytes| <= 8
    ensures LittleEndian(bytes) < WORD_SIZE
    ensures |bytes| <= 4 ==> LittleEndian(bytes) < 0x1_0000_0000
    ensures |bytes| <= 2 ==> LittleEndian(bytes) < 0x1_0000
    ensures |bytes| <= 1 ==> LittleEndian(bytes) < 0x100
    ensures |bytes| <= 3 ==> LittleEndian(bytes) < 0x100_0000
    ensures |bytes| <= 5 ==> LittleEndian(bytes) < 0x100_0000_0000
    ensures |bytes| <= 6 ==> LittleEndian(bytes) < 0x1_0000_0000_0000
    ensures |bytes| <= 7 ==> LittleEndian(bytes) < 0x100_0000_0000_0000
  {
  }

  function ConstantValue(opcode: byte, data: seq<byte>): word
    requires IsConstant(opcode) && |data| == DataSize(opcode)
  {
    if opcode == ONE_OP then 1
    else if opcode == ONES_OP then ALL_ONES
    else LittleEndianBound(data); LittleEndian(data)
  }

  // ------------------------------------------------------------- state transitions

  function PushOperand(s: State, o: Operand): State {
    s.(ops := s.ops + [o])
  }

  function PushItem(s: State, i: Item): State {
    s.(stack := Push(s.stack, i))
  }

  /** Replaces the top stack item, as writing through the item pointer does. */
  function SetItem(s: State, i: Item): State
    requires s.stack.Entry?
  {
    s.(stack := Push(Pop(s.stack), i))
  }

  function PushBlock(s: State, b: Block): State {
    s.(blk := Push(s.blk, b))
  }

  /** lai_exec_commit_pc() */
  function CommitPc(s: State, pc: nat): State
    requires s.blk.Entry?
  {
    s.(blk := Push(Pop(s.blk), Top(s.blk).(pc := pc)))
  }

  function SetInvocation(s: State, inv: Invocation): State
    requires s.ctx.Entry?
  {
    s.(ctx := Push(Pop(s.ctx), Top(s.ctx).(inv := inv)))
  }

  function DropOperands(s: State, n: nat): State
    requires n <= |s.ops|
  {
    s.(ops := s.ops[..|s.ops| - n])
  }

  function PopItem(s: State): State
    requires s.stack.Entry?
  {
    s.(stack := Pop(s.stack))
  }

  /** Pops an item that owns a block, together with the block. */
  function PopScope(s: State): State
    requires s.stack.Entry? && s.blk.Entry?
  {
    s.(stack := Pop(s.stack), blk := Pop(s.blk))
  }

  /** Pops a method item with its block and context. */
  function PopMethod(s: State): State
    requires s.stack.Entry? && s.blk.Entry? && s.ctx.Entry?
  {
    s.(stack := Pop(s.stack), blk := Pop(s.blk), ctx := Pop(s.ctx))
  }

  function PushResult(s: State, want: bool, v: Value): State {
    if want then PushOperand(s, Object(v)) else s
  }

  /** Leaves all loops and conditions above the innermost method item. */
  function UnwindToMethod(s: State): (r: Outcome)
    ensures r.Next? ==> r.s.stack.Entry? && Top(r.s.stack).MethodItem? && r.s.ops == s.ops && r.s.ctx == s.ctx
    decreases s.stack
  {
    if s.stack.Empty? then Stop(Panic)
    else if Top(s.stack).MethodItem? then Next(s)
    else if !Top(s.stack).LoopItem? && !Top(s.stack).CondItem? then Stop(Panic)
    else if s.blk.Empty? then Stop(Corrupt)
    else UnwindToMethod(PopScope(s))
  }

  /** Leaves all conditions above the innermost loop item. */
  function UnwindToLoop(s: State): (r: Outcome)
    ensures r.Next? ==> r.s.stack.Entry? && Top(r.s.stack).LoopItem? && r.s.ops == s.ops && r.s.ctx == s.ctx
    decreases s.stack
  {
    if s.stack.Empty? then Stop(Panic)
    else if Top(s.stack).LoopItem? then Next(s)
    else if !Top(s.stack).CondItem? then Stop(Panic)
    else if s.blk.Empty? then Stop(Corrupt)
    else UnwindToLoop(PopScope(s))
  }

  /** lai_exec_process() */
  function Process(ms: Platform, s: State): Outcome
    requires s.stack.Entry?
  {
    if s.ctx.Empty? || s.blk.Empty? then Stop(Corrupt)
    else if Top(s.blk).pc > Top(s.blk).limit then Stop(Panic)
    else
      match Top(s.stack)
      case MethodItem(want) => ProcessMethod(ms, s, want)
      case OpItem(frame, opcode, want) => ProcessOp(ms, s, frame, opcode, want)
      case InvokeItem(frame, argc, want) => ProcessInvoke(ms, s, frame, argc, want)
      case ReturnItem(frame) => ProcessReturn(ms, s, frame)
      case LoopItem(frame, iterating, pred) => ProcessLoop(ms, s, frame, iterating, pred)
      case CondItem(frame, branch, hasElse, elsePc, elseLimit) =>
        ProcessCond(ms, s, frame, branch, hasElse, elsePc, elseLimit)
  }

  predicate AtEnd(s: State)
    requires s.blk.Entry?
  {
    Top(s.blk).pc == Top(s.blk).limit
  }

  predicate Ready(s: State) {
    s.stack.Entry? && s.ctx.Entry? && s.blk.Entry?
  }

  function ProcessMethod(ms: Platform, s: State, want: bool): Outcome
    requires Ready(s)
  {
    if !AtEnd(s) then Parse(ms, s, ExecMode)
    else if s.ops != [] then Stop(Panic)
    else Next(PushResult(PopMethod(s), want, Integer(0)))
  }

  function ProcessOp(ms: Platform, s: State, frame: nat, opcode: byte, want: bool): Outcome
    requires Ready(s)
  {
    var k := |s.ops| - frame;
    if k < 0 || k > Arity(opcode) || !IsOperator(opcode) then Stop(Corrupt)
    else if k < Arity(opcode) then Parse(ms, s, OperandMode(opcode, k))
    else
      match ms.reduce(opcode, s.ops[frame..], Top(s.ctx).inv)
      case Stuck(f) => Stop(f)
      case Reduced(v, inv) =>
        Next(PopItem(PushResult(DropOperands(SetInvocation(s, inv), k), want, v)))
  }

  /** The cells of a new invocation: the first operands become arguments. */
  function Arguments(operands: seq<Operand>): Invocation
    requires |operands| <= 7
  {
    InvocationCells(seq(7, i requires 0 <= i => if i < |operands| && operands[i].Object? then operands[i].v else Uninitialised),
                    seq(8, _ => Uninitialised))
  }

  function ProcessInvoke(ms: Platform, s: State, frame: nat, argc: nat, want: bool): Outcome
    requires Ready(s)
  {
    var k := |s.ops| - frame;
    if k < 1 || k > argc + 1 || argc > 7 then Stop(Corrupt)
    else if k < argc + 1 then Parse(ms, s, ObjectMode)
    else if !s.ops[frame].MethodName? || s.ops[frame].name !in ms.nodes then Stop(Corrupt)
    else if exists i :: frame < i < |s.ops| && !s.ops[i].Object? then Stop(Panic)
    else
      var callee := Context(ms.nodes[s.ops[frame].name].code, Arguments(s.ops[frame + 1..]));
      var s1 := PopItem(DropOperands(s, k));
      Next(PushItem(PushBlock(s1.(ctx := Push(s1.ctx, callee)), Block(0, |callee.code|)), MethodItem(want)))
  }

  function ProcessReturn(ms: Platform, s: State, frame: nat): Outcome
    requires Ready(s)
  {
    var k := |s.ops| - frame;
    if k < 0 || k > 1 then Stop(Corrupt)
    else if k == 0 then Parse(ms, s, ObjectMode)
    else if !s.ops[|s.ops| - 1].Object? then Stop(Panic)
    else
      match UnwindToMethod(PopItem(DropOperands(s, 1)))
      case Stop(f) => Stop(f)
      case Next(s1) =>
        if s1.blk.Empty? || s1.ctx.Empty? then Stop(Corrupt)
        else Next(PushResult(PopMethod(s1), Top(s1.stack).wantResult, s.ops[|s.ops| - 1].v))
  }

  function ProcessLoop(ms: Platform, s: State, frame: nat, iterating: bool, pred: nat): Outcome
    requires Ready(s)
  {
    if iterating then
      if AtEnd(s) then Next(CommitPc(SetItem(s, LoopItem(frame, false, pred)), pred))
      else Parse(ms, s, ExecMode)
    else
      var k := |s.ops| - frame;
      if k < 0 || k > 1 then Stop(Corrupt)
      else if k == 0 then Parse(ms, s, ObjectMode)
      else
        match GetInteger(s.ops[|s.ops| - 1])
        case None => Stop(Panic)
        case Some(n) =>
          if n != 0 then Next(SetItem(DropOperands(s, 1), LoopItem(frame, true, pred)))
          else Next(PopScope(DropOperands(s, 1)))
  }

  function ProcessCond(ms: Platform, s: State, frame: nat, branch: bool, hasElse: bool, elsePc: nat, elseLimit: nat): Outcome
    requires Ready(s)
  {
    if branch then
      if AtEnd(s) then Next(PopScope(s)) else Parse(ms, s, ExecMode)
    else
      var k := |s.ops| - frame;
      if k < 0 || k > 1 then Stop(Corrupt)
      else if k == 0 then Parse(ms, s, ObjectMode)
      else
        match GetInteger(s.ops[|s.ops| - 1])
        case None => Stop(Panic)
        case Some(n) =>
          var taken := SetItem(DropOperands(s, 1), CondItem(frame, true, hasElse, elsePc, elseLimit));
          if n != 0 then Next(taken)
          else if hasElse then Next(taken.(blk := Push(Pop(taken.blk), Block(elsePc, elseLimit))))
          else Next(PopScope(DropOperands(s, 1)))
  }

  /** lai_exec_parse() */
  function Parse(ms: Platform, s: State, mode: Mode): Outcome
    requires Ready(s)
  {
    var code := Top(s.ctx).code;
    var pc := Top(s.blk).pc;
    if pc >= Top(s.blk).limit then Stop(Panic)
    else if pc >= |code| then Stop(OutOfCode)
    else if IsName(code[pc]) then ParseName(ms, s, mode)
    else ParseOpcode(s, mode, code[pc])
  }

  /** Names are single segments that resolve to methods. */
  function ParseName(ms: Platform, s: State, mode: Mode): Outcome
    requires Ready(s)
  {
    var code := Top(s.ctx).code;
    var pc := Top(s.blk).pc;
    if pc >= |code| || !IsLeadName(code[pc]) then Stop(Unsupported)
    else if pc + 4 > |code| then Stop(OutOfCode)
    else
      var name := code[pc..pc + 4];
      var s1 := CommitPc(s, pc + 4);
      if name !in ms.nodes then Stop(ErrorCode)
      else if ms.nodes[name].argc > 7 then Stop(Unsupported)
      else if mode == ReferenceMode then Next(PushOperand(s1, MethodName(name)))
      else
        Next(PushOperand(PushItem(s1, InvokeItem(|s.ops|, ms.nodes[name].argc, mode != ExecMode)), MethodName(name)))
  }

  /** The opcode switch of lai_exec_parse(). */
  function ParseOpcode(s: State, mode: Mode, opcode: byte): Outcome
    requires Ready(s) && Top(s.blk).pc < |Top(s.ctx).code|
  {
    var pc := Top(s.blk).pc;
    if opcode == NOP_OP then Next(CommitPc(s, pc + 1))
    else if IsConstant(opcode) then ParseConstant(s, mode, opcode)
    else if LOCAL0_OP <= opcode < ARG0_OP then
      ParseCell(s, mode, LocalName(opcode - LOCAL0_OP))
    else if ARG0_OP <= opcode < ARG0_OP + 7 then
      ParseCell(s, mode, ArgName(opcode - ARG0_OP))
    else if IsOperator(opcode) then
      Next(PushItem(CommitPc(s, pc + 1), OpItem(|s.ops|, opcode, mode != ExecMode)))
    else if opcode == RETURN_OP then
      Next(PushItem(CommitPc(s, pc + 1), ReturnItem(|s.ops|)))
    else if opcode == WHILE_OP then ParseWhile(s)
    else if opcode == IF_OP then ParseIf(s)
    else if opcode == ELSE_OP then Stop(Panic)
    else if opcode == CONTINUE_OP then UnwindToLoop(s)
    else if opcode == BREAK_OP then
      match UnwindToLoop(s)
      case Stop(f) => Stop(f)
      case Next(s1) => if s1.blk.Empty? then Stop(Corrupt) else Next(PopScope(s1))
    else Stop(Unsupported)
  }

  function ParseConstant(s: State, mode: Mode, opcode: byte): Outcome
    requires Ready(s) && IsConstant(opcode)
  {
    var code := Top(s.ctx).code;
    var end := Top(s.blk).pc + 1 + DataSize(opcode);
    if DataSize(opcode) > 0 && end > Top(s.blk).limit then Stop(ErrorCode)
    else if end > |code| then Stop(OutOfCode)
    else
      var s1 := CommitPc(s, end);
      var v := ConstantValue(opcode, code[end - DataSize(opcode)..end]);
      if mode == ObjectMode then Next(PushOperand(s1, Object(Integer(v))))
      else if mode == ExecMode then Next(s1)
      else if opcode == ZERO_OP then Next(PushOperand(s1, NullName))
      else Stop(Panic)
  }

  function ParseCell(s: State, mode: Mode, cell: Operand): Outcome
    requires Ready(s)
  {
    var s1 := CommitPc(s, Top(s.blk).pc + 1);
    if mode == ReferenceMode then Next(PushOperand(s1, cell))
    else
      match Load(cell, Top(s.ctx).inv)
      case Some(v) => if mode == ObjectMode then Next(PushOperand(s1, Object(v))) else Stop(Panic)
      case None => Stop(Corrupt)
  }

  function ParseWhile(s: State): Outcome
    requires Ready(s)
  {
    var pc := Top(s.blk).pc;
    match ParseVarint(Top(s.ctx).code, pc + 1, Top(s.blk).limit)
    case None => Stop(ErrorCode)
    case Some((size, body)) =>
      Next(PushItem(PushBlock(CommitPc(s, pc + 1 + size), Block(body, pc + 1 + size)),
                    LoopItem(|s.ops|, false, body)))
  }

  function ParseIf(s: State): Outcome
    requires Ready(s)
  {
    var code := Top(s.ctx).code;
    var pc := Top(s.blk).pc;
    var limit := Top(s.blk).limit;
    match ParseVarint(code, pc + 1, limit)
    case None => Stop(ErrorCode)
    case Some((size, body)) =>
      var end := pc + 1 + size;
      if end < limit && end >= |code| then Stop(OutOfCode)
      else if end < limit && code[end] == ELSE_OP then
        match ParseVarint(code, end + 1, limit)
        case None => Stop(ErrorCode)
        case Some((elseSize, elsePc)) =>
          Next(PushItem(PushBlock(CommitPc(s, end + 1 + elseSize), Block(body, end)),
                        CondItem(|s.ops|, false, true, elsePc, end + 1 + elseSize)))
      else
        Next(PushItem(PushBlock(CommitPc(s, end), Block(body, end)),
                      CondItem(|s.ops|, false, false, 0, end + 1)))
  }
}
