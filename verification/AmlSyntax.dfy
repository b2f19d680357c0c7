/**
 Structured AML: terms and statements as the ASL author sees them, their byte encoding
 (ACPI specification, sections 20.2.4 PkgLength, 20.2.5.3 statements, 20.2.5.4 expressions)
 and a meaning given by recursion over the structure.
 */
module AmlSyntax {
  import opened AmlTypes
  import opened AmlMachine

  type LocalIndex = i: nat | i < 8
  type ArgIndex = i: nat | i < 7

  datatype Target = NullTarget | LocalTarget(i: LocalIndex) | ArgTarget(j: ArgIndex)

  datatype Targets = NoTargets | MoreTargets(first: Target, rest: Targets)

  datatype Expr =
    | Constant(opcode: byte, n: word)
    | LocalVar(i: LocalIndex)
    | ArgVar(j: ArgIndex)
    | Operator(opcode: byte, inputs: Exprs, targets: Targets)
    | Call(name: seq<byte>, args: Exprs)

  datatype Exprs = NoExprs | MoreExprs(first: Expr, rest: Exprs)

  /** The widths are the sizes in bytes of the PkgLength encodings. */
  datatype Stmt =
    | NoOp
    | Discard(e: Expr)
    | If(width: nat, cond: Expr, thn: Stmts)
    | IfElse(width: nat, elseWidth: nat, cond: Expr, thn: Stmts, els: Stmts)
    | While(width: nat, cond: Expr, body: Stmts)
    | Break
    | Continue
    | Return(e: Expr)

  datatype Stmts = NoStmts | MoreStmts(first: Stmt, rest: Stmts)

  datatype Definition = Definition(argc: nat, body: Stmts)
  datatype Program = Program(defs: map<seq<byte>, Definition>, reduce: Reducer)

  function Count(es: Exprs): nat {
    match es
    case NoExprs => 0
    case MoreExprs(_, rest) => 1 + Count(rest)
  }

  function CountTargets(ts: Targets): nat {
    match ts
    case NoTargets => 0
    case MoreTargets(_, rest) => 1 + CountTargets(rest)
  }

  // -------------------------------------------------------------------- encoding

  function LittleEndianBytes(n: nat, size: nat): (r: seq<byte>)
    ensures |r| == size
  {
    if size == 0 then [] else [n % 0x100] + LittleEndianBytes(n / 0x100, size - 1)
  }

  function ByteRange(size: nat): (r: nat)
    ensures r >= 1
  {
    if size == 0 then 1 else 0x100 * ByteRange(size - 1)
  }

  lemma {:induction false} LittleEndianRoundTrip(n: nat, size: nat)
    requires n < ByteRange(size)
    ensures LittleEndian(LittleEndianBytes(n, size)) == n
  {
    if size > 0 {
      LittleEndianRoundTrip(n / 0x100, size - 1);
      assert LittleEndianBytes(n, size)[1..] == LittleEndianBytes(n / 0x100, size - 1);
    }
  }

  /** Byte k of a package length of `width` bytes for a package of `total` bytes. */
  function PkgByte(width: nat, total: nat, k: nat): byte
    requires PkgFits(width, total) && k < width
  {
    if width == 1 then total
    else if k == 0 then 0x40 * (width - 1) + total % 16
    else if k == 1 then total / 16 % 0x100
    else if k == 2 then total / 16 / 0x100 % 0x100
    else total / 16 / 0x100 / 0x100
  }

  /** A package length for a package of `total` bytes, itself included. */
  function PkgLength(width: nat, total: nat): (r: seq<byte>)
    ensures PkgFits(width, total) ==> |r| == width
  {
    if PkgFits(width, total) then seq(width, k requires 0 <= k < width => PkgByte(width, total, k)) else []
  }

  predicate PkgFits(width: nat, total: nat) {
    || (width == 1 && total < 0x40)
    || (width == 2 && total < 0x1000)
    || (width == 3 && total < 0x10_0000)
    || (width == 4 && total < 0x1000_0000)
  }

  function EncodeTarget(t: Target): byte {
    match t
    case NullTarget => ZERO_OP
    case LocalTarget(i) => LOCAL0_OP + i
    case ArgTarget(j) => ARG0_OP + j
  }

  function EncodeTargets(ts: Targets): seq<byte> {
    match ts
    case NoTargets => []
    case MoreTargets(first, rest) => [EncodeTarget(first)] + EncodeTargets(rest)
  }

  function EncodeExpr(e: Expr): seq<byte> {
    match e
    case Constant(opcode, n) => [opcode] + LittleEndianBytes(n, DataSize(opcode))
    case LocalVar(i) => [LOCAL0_OP + i]
    case ArgVar(j) => [ARG0_OP + j]
    case Operator(opcode, inputs, targets) => [opcode] + (EncodeExprs(inputs) + EncodeTargets(targets))
    case Call(name, args) => name + EncodeExprs(args)
  }

  function EncodeExprs(es: Exprs): seq<byte> {
    match es
    case NoExprs => []
    case MoreExprs(first, rest) => EncodeExpr(first) + EncodeExprs(rest)
  }

  /** A length followed by the bytes it counts. */
  function Package(width: nat, content: seq<byte>): seq<byte> {
    PkgLength(width, width + |content|) + content
  }

  function EncodeStmt(s: Stmt): seq<byte>
    decreases s, 0
  {
    match s
    case NoOp => [NOP_OP]
    case Discard(e) => EncodeExpr(e)
    case If(width, cond, thn) => EncodeScope(IF_OP, width, cond, thn)
    case IfElse(width, elseWidth, cond, thn, els) => EncodeScope(IF_OP, width, cond, thn) + EncodeElse(elseWidth, els)
    case While(width, cond, body) => EncodeScope(WHILE_OP, width, cond, body)
    case Break => [BREAK_OP]
    case Continue => [CONTINUE_OP]
    case Return(e) => [RETURN_OP] + EncodeExpr(e)
  }

  /** An opcode with a package that holds a predicate and the statements under it. */
  function EncodeScope(opcode: byte, width: nat, cond: Expr, body: Stmts): seq<byte>
    decreases body, 1
  {
    [opcode] + Package(width, EncodeExpr(cond) + EncodeStmts(body))
  }

  function EncodeElse(width: nat, els: Stmts): seq<byte>
    decreases els, 1
  {
    [ELSE_OP] + Package(width, EncodeStmts(els))
  }

  function EncodeStmts(ss: Stmts): seq<byte>
    decreases ss, 0
  {
    match ss
    case NoStmts => []
    case MoreStmts(first, rest) => EncodeStmt(first) + EncodeStmts(rest)
  }

  predicate ConstantOk(opcode: byte, n: word) {
    && IsConstant(opcode)
    && n < (if opcode == ONE_OP then 2 else if opcode == ONES_OP then WORD_SIZE else ByteRange(DataSize(opcode)))
    && (opcode == ONE_OP ==> n == 1) && (opcode == ONES_OP ==> n == ALL_ONES)
  }

  /** Terms that have an encoding. */
  predicate ExprOk(p: Program, e: Expr) {
    match e
    case Constant(opcode, n) => ConstantOk(opcode, n)
    case LocalVar(_) => true
    case ArgVar(_) => true
    case Operator(opcode, inputs, targets) =>
      && IsOperator(opcode) && Count(inputs) == Inputs(opcode) && CountTargets(targets) == OperatorTargets(opcode)
      && ExprsOk(p, inputs)
    case Call(name, args) =>
      && |name| == 4 && IsLeadName(name[0]) && (name in p.defs ==> p.defs[name].argc == Count(args) <= 7)
      && ExprsOk(p, args)
  }

  predicate ExprsOk(p: Program, es: Exprs) {
    match es
    case NoExprs => true
    case MoreExprs(first, rest) => ExprOk(p, first) && ExprsOk(p, rest)
  }

  predicate PackageOk(width: nat, content: seq<byte>) {
    PkgFits(width, width + |content|)
  }

  predicate StmtOk(p: Program, s: Stmt) {
    match s
    case NoOp => true
    case Discard(e) => ExprOk(p, e)
    case If(width, cond, thn) =>
      && ExprOk(p, cond) && StmtsOk(p, thn)
      && PackageOk(width, EncodeExpr(cond) + EncodeStmts(thn))
    case IfElse(width, elseWidth, cond, thn, els) =>
      && ExprOk(p, cond) && StmtsOk(p, thn) && StmtsOk(p, els)
      && PackageOk(width, EncodeExpr(cond) + EncodeStmts(thn)) && PackageOk(elseWidth, EncodeStmts(els))
    case While(width, cond, body) =>
      && ExprOk(p, cond) && StmtsOk(p, body)
      && PackageOk(width, EncodeExpr(cond) + EncodeStmts(body))
    case Break => true
    case Continue => true
    case Return(e) => ExprOk(p, e)
  }

  predicate StmtsOk(p: Program, ss: Stmts) {
    match ss
    case NoStmts => true
    case MoreStmts(first, rest) => StmtOk(p, first) && StmtsOk(p, rest)
  }

  ghost predicate ProgramOk(p: Program) {
    forall name :: name in p.defs ==> p.defs[name].argc <= 7 && StmtsOk(p, p.defs[name].body)
  }

  /** The method nodes the program is loaded as. */
  function Compile(p: Program): Platform
    requires ProgramOk(p)
  {
    Platform(map name | name in p.defs :: Method(p.defs[name].argc, EncodeStmts(p.defs[name].body)), p.reduce)
  }

  // ---------------------------------------------------------------------- meaning

  datatype ExprResult = Val(v: Value, inv: Invocation) | ExprFault(f: Fault) | ExprTimeout
  datatype ExprsResult = Vals(operands: seq<Operand>, inv: Invocation) | ExprsFault(f: Fault) | ExprsTimeout
  datatype StmtResult =
    | Completed(inv: Invocation)
    | Broke(inv: Invocation)
    | Continued(inv: Invocation)
    | Returned(v: Value, inv: Invocation)
    | StmtFault(f: Fault)
    | StmtTimeout

  /** Where a statement list stands. */
  datatype Level = InMethod | InLoop | InCond(loop: bool)

  predicate InsideLoop(l: Level) {
    l == InLoop || l == InCond(true)
  }

  function TargetOperand(t: Target): Operand {
    match t
    case NullTarget => NullName
    case LocalTarget(i) => LocalName(i)
    case ArgTarget(j) => ArgName(j)
  }

  function TargetOperands(ts: Targets): (r: seq<Operand>)
    ensures |r| == CountTargets(ts)
  {
    match ts
    case NoTargets => []
    case MoreTargets(first, rest) => [TargetOperand(first)] + TargetOperands(rest)
  }

  /**
   The value of a term. `clear` says that no operand of an enclosing term is pending: only
   then may a called method end without an explicit Return.
   */
  function EvalExpr(p: Program, fuel: nat, clear: bool, e: Expr, inv: Invocation): ExprResult
    requires ProgramOk(p) && ExprOk(p, e)
    decreases fuel, e, 0
  {
    match e
    case Constant(_, n) => Val(Integer(n), inv)
    case LocalVar(i) => Val(inv.local[i], inv)
    case ArgVar(j) => Val(inv.arg[j], inv)
    case Operator(opcode, inputs, targets) =>
      (match EvalExprs(p, fuel, clear, inputs, inv)
       case ExprsTimeout => ExprTimeout
       case ExprsFault(f) => ExprFault(f)
       case Vals(operands, inv1) =>
         match p.reduce(opcode, operands + TargetOperands(targets), inv1)
         case Stuck(f) => ExprFault(f)
         case Reduced(v, inv2) => Val(v, inv2))
    case Call(name, args) =>
      if name !in p.defs then ExprFault(ErrorCode)
      else
        match EvalExprs(p, fuel, false, args, inv)
        case ExprsTimeout => ExprTimeout
        case ExprsFault(f) => ExprFault(f)
        case Vals(operands, inv1) =>
          if fuel == 0 then ExprTimeout
          else
            match ExecStmts(p, fuel - 1, clear, InMethod, p.defs[name].body, Arguments(operands))
            case Returned(v, _) => Val(v, inv1)
            case Completed(_) => if clear then Val(Integer(0), inv1) else ExprFault(Panic)
            case StmtFault(f) => ExprFault(f)
            case _ => ExprTimeout
  }

  /** Left to right; after the first operand something is pending. */
  function EvalExprs(p: Program, fuel: nat, clear: bool, es: Exprs, inv: Invocation): (r: ExprsResult)
    requires ProgramOk(p) && ExprsOk(p, es)
    ensures r.Vals? ==> |r.operands| == Count(es)
    ensures r.Vals? ==> forall i :: 0 <= i < |r.operands| ==> r.operands[i].Object?
    decreases fuel, es, 0
  {
    match es
    case NoExprs => Vals([], inv)
    case MoreExprs(first, rest) =>
      match EvalExpr(p, fuel, clear, first, inv)
      case ExprTimeout => ExprsTimeout
      case ExprFault(f) => ExprsFault(f)
      case Val(v, inv1) =>
        match EvalExprs(p, fuel, false, rest, inv1)
        case Vals(operands, inv2) => Vals([Object(v)] + operands, inv2)
        case r => r
  }

  /**
   The effect of a statement. Continue is given the meaning the interpreter gives it: it
   leaves the conditions around it, goes on behind them instead of at the predicate, and
   directly under a loop it makes no progress at all.
   */
  function ExecStmt(p: Program, fuel: nat, clear: bool, level: Level, s: Stmt, inv: Invocation): StmtResult
    requires ProgramOk(p) && StmtOk(p, s)
    decreases fuel, s, 1
  {
    match s
    case NoOp => Completed(inv)
    case Discard(e) =>
      if e.LocalVar? || e.ArgVar? then StmtFault(Panic)
      else
        (match EvalExpr(p, fuel, clear, e, inv)
         case ExprTimeout => StmtTimeout
         case ExprFault(f) => StmtFault(f)
         case Val(_, inv1) => Completed(inv1))
    case Return(e) =>
      (match EvalExpr(p, fuel, clear, e, inv)
       case ExprTimeout => StmtTimeout
       case ExprFault(f) => StmtFault(f)
       case Val(v, inv1) => Returned(v, inv1))
    case Break => if InsideLoop(level) then Broke(inv) else StmtFault(Panic)
    case Continue =>
      if level == InLoop then StmtTimeout else if InsideLoop(level) then Continued(inv) else StmtFault(Panic)
    case If(_, _, _) => ExecCond(p, fuel, clear, level, s, inv)
    case IfElse(_, _, _, _, _) => ExecCond(p, fuel, clear, level, s, inv)
    case While(_, cond, body) =>
      match EvalExpr(p, fuel, clear, cond, inv)
      case ExprTimeout => StmtTimeout
      case ExprFault(f) => StmtFault(f)
      case Val(Uninitialised, _) => StmtFault(Panic)
      case Val(Integer(n), inv1) =>
        if n == 0 then Completed(inv1)
        else
          match ExecStmts(p, fuel, clear, InLoop, body, inv1)
          case Completed(inv2) => if fuel == 0 then StmtTimeout else ExecStmt(p, fuel - 1, clear, level, s, inv2)
          case Broke(inv2) => Completed(inv2)
          case r => r
  }

  function ExecCond(p: Program, fuel: nat, clear: bool, level: Level, s: Stmt, inv: Invocation): StmtResult
    requires ProgramOk(p) && StmtOk(p, s) && (s.If? || s.IfElse?)
    decreases fuel, s, 0
  {
    match EvalExpr(p, fuel, clear, s.cond, inv)
    case ExprTimeout => StmtTimeout
    case ExprFault(f) => StmtFault(f)
    case Val(Uninitialised, _) => StmtFault(Panic)
    case Val(Integer(n), inv1) =>
      if n == 0 && s.If? then Completed(inv1)
      else
        match ExecStmts(p, fuel, clear, InCond(InsideLoop(level)), if n != 0 then s.thn else s.els, inv1)
        case Continued(inv2) => if level == InLoop then Completed(inv2) else Continued(inv2)
        case r => r
  }

  function ExecStmts(p: Program, fuel: nat, clear: bool, level: Level, ss: Stmts, inv: Invocation): StmtResult
    requires ProgramOk(p) && StmtsOk(p, ss)
    decreases fuel, ss, 0
  {
    match ss
    case NoStmts => Completed(inv)
    case MoreStmts(first, rest) =>
      match ExecStmt(p, fuel, clear, level, first, inv)
      case Completed(inv1) => ExecStmts(p, fuel, clear, level, rest, inv1)
      case r => r
  }
}
