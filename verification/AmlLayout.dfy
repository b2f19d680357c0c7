/**
 Where the parts of structured AML lie in method code: the positions an interpreter has to
 visit, computed from sizes alone, and the proof that the encoding puts them there.
 */
module AmlLayout {
  import opened AmlTypes
  import opened AmlMachine
  import opened AmlSyntax

  function Size(e: Expr): nat {
    match e
    case Constant(opcode, _) => 1 + DataSize(opcode)
    case LocalVar(_) => 1
    case ArgVar(_) => 1
    case Operator(_, inputs, targets) => 1 + Sizes(inputs) + CountTargets(targets)
    case Call(_, args) => 4 + Sizes(args)
  }

  function Sizes(es: Exprs): nat {
    match es
    case NoExprs => 0
    case MoreExprs(first, rest) => Size(first) + Sizes(rest)
  }

  function StmtSize(s: Stmt): nat {
    match s
    case NoOp => 1
    case Discard(e) => Size(e)
    case If(width, cond, thn) => 1 + width + Size(cond) + StmtsSize(thn)
    case IfElse(width, elseWidth, cond, thn, els) =>
      1 + width + Size(cond) + StmtsSize(thn) + 1 + elseWidth + StmtsSize(els)
    case While(width, cond, body) => 1 + width + Size(cond) + StmtsSize(body)
    case Break => 1
    case Continue => 1
    case Return(e) => 1 + Size(e)
  }

  function StmtsSize(ss: Stmts): nat {
    match ss
    case NoStmts => 0
    case MoreStmts(first, rest) => StmtSize(first) + StmtsSize(rest)
  }

  predicate ByteAt(code: seq<byte>, pc: nat, b: byte) {
    pc < |code| && code[pc] == b
  }

  predicate ConstantAt(code: seq<byte>, pc: nat, opcode: byte, n: word) {
    && IsConstant(opcode) && ByteAt(code, pc, opcode) && pc + 1 + DataSize(opcode) <= |code|
    && ConstantValue(opcode, code[pc + 1..pc + 1 + DataSize(opcode)]) == n
  }

  predicate NameAt(code: seq<byte>, pc: nat, name: seq<byte>) {
    |name| == 4 && pc + 4 <= |code| && code[pc..pc + 4] == name && IsLeadName(code[pc])
  }

  /** A package length of `width` bytes that reads as `size` under every limit that admits the bytes. */
  ghost predicate LengthAt(code: seq<byte>, pc: nat, width: nat, size: nat) {
    && pc + width <= |code|
    && forall limit: nat {:trigger ParseVarint(code, pc, limit)} ::
         pc + width <= limit ==> ParseVarint(code, pc, limit) == Some((size, pc + width))
  }

  /** An opcode, a package length of `width` bytes and `size` bytes of package behind the opcode. */
  ghost predicate PackageAt(code: seq<byte>, pc: nat, opcode: byte, width: nat, size: nat) {
    ByteAt(code, pc, opcode) && LengthAt(code, pc + 1, width, size)
  }

  predicate ExprAt(code: seq<byte>, pc: nat, e: Expr)
    decreases e
  {
    match e
    case Constant(opcode, n) => ConstantAt(code, pc, opcode, n)
    case LocalVar(i) => ByteAt(code, pc, LOCAL0_OP + i)
    case ArgVar(j) => ByteAt(code, pc, ARG0_OP + j)
    case Operator(opcode, inputs, targets) =>
      ByteAt(code, pc, opcode) && ExprsAt(code, pc + 1, inputs) && TargetsAt(code, pc + 1 + Sizes(inputs), targets)
    case Call(name, args) => NameAt(code, pc, name) && ExprsAt(code, pc + 4, args)
  }

  predicate ExprsAt(code: seq<byte>, pc: nat, es: Exprs)
    decreases es
  {
    match es
    case NoExprs => true
    case MoreExprs(first, rest) => ExprAt(code, pc, first) && ExprsAt(code, pc + Size(first), rest)
  }

  predicate TargetsAt(code: seq<byte>, pc: nat, ts: Targets)
    decreases ts
  {
    match ts
    case NoTargets => true
    case MoreTargets(first, rest) => ByteAt(code, pc, EncodeTarget(first)) && TargetsAt(code, pc + 1, rest)
  }

  ghost predicate StmtAt(code: seq<byte>, pc: nat, s: Stmt)
    decreases s, 0
  {
    match s
    case NoOp => ByteAt(code, pc, NOP_OP)
    case Discard(e) => ExprAt(code, pc, e)
    case If(width, cond, thn) => ScopeAt(code, pc, IF_OP, width, cond, thn)
    case IfElse(width, elseWidth, cond, thn, els) =>
      var end := pc + 1 + width + Size(cond) + StmtsSize(thn);
      && ScopeAt(code, pc, IF_OP, width, cond, thn)
      && ElseAt(code, end, elseWidth, els)
    case While(width, cond, body) => ScopeAt(code, pc, WHILE_OP, width, cond, body)
    case Break => ByteAt(code, pc, BREAK_OP)
    case Continue => ByteAt(code, pc, CONTINUE_OP)
    case Return(e) => ByteAt(code, pc, RETURN_OP) && ExprAt(code, pc + 1, e)
  }

  /** An opcode with a package that holds a predicate and the statements under it. */
  ghost predicate ScopeAt(code: seq<byte>, pc: nat, opcode: byte, width: nat, cond: Expr, body: Stmts)
    decreases body, 1
  {
    && PackageAt(code, pc, opcode, width, width + Size(cond) + StmtsSize(body))
    && ExprAt(code, pc + 1 + width, cond)
    && StmtsAt(code, pc + 1 + width + Size(cond), body)
  }

  ghost predicate ElseAt(code: seq<byte>, pc: nat, width: nat, els: Stmts)
    decreases els, 1
  {
    PackageAt(code, pc, ELSE_OP, width, width + StmtsSize(els)) && StmtsAt(code, pc + 1 + width, els)
  }

  ghost predicate StmtsAt(code: seq<byte>, pc: nat, ss: Stmts)
    decreases ss, 0
  {
    match ss
    case NoStmts => true
    case MoreStmts(first, rest) => StmtAt(code, pc, first) && StmtsAt(code, pc + StmtSize(first), rest)
  }

  // ---------------------------------------------------------------- bytes in code

  /** The bytes from index i on lie in the code, the first of all of them at pc. */
  ghost predicate Matches(code: seq<byte>, pc: nat, bytes: seq<byte>, i: nat)
    requires i <= |bytes| && pc + |bytes| <= |code|
    decreases |bytes| - i
  {
    i == |bytes| || (code[pc + i] == bytes[i] && Matches(code, pc, bytes, i + 1))
  }

  ghost predicate At(code: seq<byte>, pc: nat, bytes: seq<byte>) {
    pc + |bytes| <= |code| && Matches(code, pc, bytes, 0)
  }

  lemma {:induction false} MatchesIndex(code: seq<byte>, pc: nat, bytes: seq<byte>, k: nat, i: nat)
    requires k <= i < |bytes| && pc + |bytes| <= |code| && Matches(code, pc, bytes, k)
    ensures code[pc + i] == bytes[i]
    decreases |bytes| - k
  {
    if k < i {
      MatchesIndex(code, pc, bytes, k + 1, i);
    }
  }

  lemma AtIndex(code: seq<byte>, pc: nat, bytes: seq<byte>, i: nat)
    requires At(code, pc, bytes) && i < |bytes|
    ensures code[pc + i] == bytes[i]
  {
    MatchesIndex(code, pc, bytes, 0, i);
  }

  lemma {:induction false} MatchesAll(code: seq<byte>, pc: nat, bytes: seq<byte>, k: nat)
    requires k <= |bytes| && pc + |bytes| <= |code|
    requires forall i :: k <= i < |bytes| ==> code[pc + i] == bytes[i]
    ensures Matches(code, pc, bytes, k)
    decreases |bytes| - k
  {
    if k < |bytes| {
      assert code[pc + k] == bytes[k];
      MatchesAll(code, pc, bytes, k + 1);
    }
  }

  lemma AtSplit(code: seq<byte>, pc: nat, a: seq<byte>, b: seq<byte>)
    requires At(code, pc, a + b)
    ensures At(code, pc, a) && At(code, pc + |a|, b)
  {
    forall i | 0 <= i < |a| ensures code[pc + i] == a[i] {
      AtIndex(code, pc, a + b, i);
    }
    forall i | 0 <= i < |b| ensures code[pc + |a| + i] == b[i] {
      AtIndex(code, pc, a + b, |a| + i);
    }
    MatchesAll(code, pc, a, 0);
    MatchesAll(code, pc + |a|, b, 0);
  }

  /** Bytes lie where they are a slice of the code. */
  lemma AtSlice(code: seq<byte>, pc: nat, bytes: seq<byte>)
    requires pc + |bytes| <= |code|
    ensures At(code, pc, bytes) <==> code[pc..pc + |bytes|] == bytes
  {
    var slice := code[pc..pc + |bytes|];
    if At(code, pc, bytes) {
      forall i | 0 <= i < |bytes| ensures slice[i] == bytes[i] {
        AtIndex(code, pc, bytes, i);
      }
    } else if slice == bytes {
      assert forall i :: 0 <= i < |bytes| ==> code[pc + i] == slice[i];
      MatchesAll(code, pc, bytes, 0);
    }
  }

  lemma AtByte(code: seq<byte>, pc: nat, b: byte, more: seq<byte>)
    requires At(code, pc, [b] + more)
    ensures ByteAt(code, pc, b) && At(code, pc + 1, more)
  {
    AtSplit(code, pc, [b], more);
    AtIndex(code, pc, [b], 0);
  }

  /** What follows the first byte of a package length. */
  function Following(total: nat): nat {
    total / 0x10
  }

  lemma LengthSplits(width: nat, total: nat)
    requires PkgFits(width, total)
    ensures FollowingBytes(PkgByte(width, total, 0)) == width - 1
    ensures width > 1 ==> PkgByte(width, total, 0) % 0x10 == total % 0x10
    ensures total == total % 0x10 + 0x10 * Following(total)
    ensures width == 2 ==> PkgByte(width, total, 1) == Following(total)
    ensures width == 3 ==> PkgByte(width, total, 1) + 0x100 * PkgByte(width, total, 2) == Following(total)
    ensures width == 4 ==>
              PkgByte(width, total, 1) + 0x100 * (PkgByte(width, total, 2) + 0x100 * PkgByte(width, total, 3)) == Following(total)
  {
  }

  lemma BytesAdd(code: seq<byte>, pc: nat, n: nat)
    requires 1 <= n <= 3 && pc + n <= |code|
    ensures WholeBytes(code, pc, n) ==
            (code[pc] as int) + (if n == 1 then 0 else 0x100 * ((code[pc + 1] as int) + if n == 2 then 0 else 0x100 * code[pc + 2] as int))
  {
    if n == 2 {
      assert WholeBytes(code, pc + 1, 1) == code[pc + 1];
    } else if n == 3 {
      assert WholeBytes(code, pc + 2, 1) == code[pc + 2];
    }
  }

  lemma VarintDecodes(code: seq<byte>, pc: nat, width: nat, total: nat)
    requires PkgFits(width, total) && At(code, pc, PkgLength(width, total))
    ensures ParseVarint(code, pc, |code|) == Some((total, pc + width))
  {
    var bytes := PkgLength(width, total);
    LengthSplits(width, total);
    AtIndex(code, pc, bytes, 0);
    if width > 1 {
      BytesAdd(code, pc + 1, width - 1);
      AtIndex(code, pc, bytes, 1);
      if width > 2 {
        AtIndex(code, pc, bytes, 2);
        if width > 3 {
          AtIndex(code, pc, bytes, 3);
        }
      }
    }
  }

  /** The limit matters to a package length only when it cuts through it. */
  lemma LengthLies(code: seq<byte>, pc: nat, width: nat, size: nat)
    requires ParseVarint(code, pc, |code|) == Some((size, pc + width))
    ensures LengthAt(code, pc, width, size)
  {
  }

  lemma PackageLies(code: seq<byte>, pc: nat, opcode: byte, width: nat, content: seq<byte>)
    requires PackageOk(width, content) && At(code, pc, [opcode] + Package(width, content))
    ensures ByteAt(code, pc, opcode) && ParseVarint(code, pc + 1, |code|) == Some((width + |content|, pc + 1 + width))
    ensures At(code, pc + 1 + width, content) && |Package(width, content)| == width + |content|
  {
    var head := PkgLength(width, width + |content|);
    AtByte(code, pc, opcode, head + content);
    AtSplit(code, pc + 1, head, content);
    VarintDecodes(code, pc + 1, width, width + |content|);
  }

  lemma ConstantLies(code: seq<byte>, pc: nat, opcode: byte, n: word)
    requires ConstantOk(opcode, n) && At(code, pc, [opcode] + LittleEndianBytes(n, DataSize(opcode)))
    ensures ConstantAt(code, pc, opcode, n)
  {
    AtByte(code, pc, opcode, LittleEndianBytes(n, DataSize(opcode)));
    var data := LittleEndianBytes(n, DataSize(opcode));
    AtSlice(code, pc + 1, data);
    if opcode != ONE_OP && opcode != ONES_OP {
      LittleEndianRoundTrip(n, DataSize(opcode));
    }
  }

  lemma {:induction false} TargetsLie(code: seq<byte>, pc: nat, ts: Targets)
    requires At(code, pc, EncodeTargets(ts))
    ensures TargetsAt(code, pc, ts) && |EncodeTargets(ts)| == CountTargets(ts)
    decreases ts
  {
    match ts
    case NoTargets =>
    case MoreTargets(first, rest) =>
      AtByte(code, pc, EncodeTarget(first), EncodeTargets(rest));
      TargetsLie(code, pc + 1, rest);
  }

  lemma {:induction false} ExprLies(p: Program, code: seq<byte>, pc: nat, e: Expr)
    requires ExprOk(p, e) && At(code, pc, EncodeExpr(e))
    ensures ExprAt(code, pc, e) && |EncodeExpr(e)| == Size(e)
    decreases e
  {
    match e
    case Constant(opcode, n) => ConstantLies(code, pc, opcode, n);
    case LocalVar(i) => assert EncodeExpr(e) == [LOCAL0_OP + i] + []; AtByte(code, pc, LOCAL0_OP + i, []);
    case ArgVar(j) => assert EncodeExpr(e) == [ARG0_OP + j] + []; AtByte(code, pc, ARG0_OP + j, []);
    case Operator(opcode, inputs, targets) =>
      AtByte(code, pc, opcode, EncodeExprs(inputs) + EncodeTargets(targets));
      AtSplit(code, pc + 1, EncodeExprs(inputs), EncodeTargets(targets));
      ExprsLie(p, code, pc + 1, inputs);
      TargetsLie(code, pc + 1 + Sizes(inputs), targets);
    case Call(name, args) =>
      AtSplit(code, pc, name, EncodeExprs(args));
      AtSlice(code, pc, name);
      ExprsLie(p, code, pc + 4, args);
  }

  lemma {:induction false} ExprsLie(p: Program, code: seq<byte>, pc: nat, es: Exprs)
    requires ExprsOk(p, es) && At(code, pc, EncodeExprs(es))
    ensures ExprsAt(code, pc, es) && |EncodeExprs(es)| == Sizes(es)
    decreases es
  {
    match es
    case NoExprs =>
    case MoreExprs(first, rest) =>
      AtSplit(code, pc, EncodeExpr(first), EncodeExprs(rest));
      ExprLies(p, code, pc, first);
      ExprsLie(p, code, pc + Size(first), rest);
  }

  lemma ScopePlaced(code: seq<byte>, pc: nat, opcode: byte, width: nat, cond: Expr, body: Stmts, size: nat)
    requires size == width + Size(cond) + StmtsSize(body)
    requires ByteAt(code, pc, opcode) && ParseVarint(code, pc + 1, |code|) == Some((size, pc + 1 + width))
    requires ExprAt(code, pc + 1 + width, cond) && StmtsAt(code, pc + 1 + width + Size(cond), body)
    ensures ScopeAt(code, pc, opcode, width, cond, body)
  {
    LengthLies(code, pc + 1, width, size);
  }

  lemma {:induction false} ScopeLies(p: Program, code: seq<byte>, pc: nat, opcode: byte, width: nat, cond: Expr, body: Stmts)
    requires ExprOk(p, cond) && StmtsOk(p, body) && PackageOk(width, EncodeExpr(cond) + EncodeStmts(body))
    requires At(code, pc, EncodeScope(opcode, width, cond, body))
    ensures ScopeAt(code, pc, opcode, width, cond, body)
    ensures |EncodeScope(opcode, width, cond, body)| == 1 + width + Size(cond) + StmtsSize(body)
    decreases body, 2
  {
    var content := EncodeExpr(cond) + EncodeStmts(body);
    PackageLies(code, pc, opcode, width, content);
    ContentLies(p, code, pc + 1 + width, cond, body);
    ScopePlaced(code, pc, opcode, width, cond, body, width + |content|);
  }

  lemma {:induction false} ElseLies(p: Program, code: seq<byte>, pc: nat, width: nat, els: Stmts)
    requires StmtsOk(p, els) && PackageOk(width, EncodeStmts(els)) && At(code, pc, EncodeElse(width, els))
    ensures ElseAt(code, pc, width, els) && |EncodeElse(width, els)| == 1 + width + StmtsSize(els)
    decreases els, 2
  {
    PackageLies(code, pc, ELSE_OP, width, EncodeStmts(els));
    LengthLies(code, pc + 1, width, width + |EncodeStmts(els)|);
    StmtsLie(p, code, pc + 1 + width, els);
  }

  lemma {:induction false} ContentLies(p: Program, code: seq<byte>, pc: nat, cond: Expr, body: Stmts)
    requires ExprOk(p, cond) && StmtsOk(p, body) && At(code, pc, EncodeExpr(cond) + EncodeStmts(body))
    ensures ExprAt(code, pc, cond) && StmtsAt(code, pc + Size(cond), body)
    ensures |EncodeExpr(cond)| == Size(cond) && |EncodeStmts(body)| == StmtsSize(body)
    decreases body, 1
  {
    AtSplit(code, pc, EncodeExpr(cond), EncodeStmts(body));
    ExprLies(p, code, pc, cond);
    StmtsLie(p, code, pc + Size(cond), body);
  }

  lemma {:induction false} StmtLies(p: Program, code: seq<byte>, pc: nat, s: Stmt)
    requires StmtOk(p, s) && At(code, pc, EncodeStmt(s))
    ensures StmtAt(code, pc, s) && |EncodeStmt(s)| == StmtSize(s)
    decreases s, 1
  {
    match s
    case NoOp => AtByte(code, pc, NOP_OP, []);
    case Break => AtByte(code, pc, BREAK_OP, []);
    case Continue => AtByte(code, pc, CONTINUE_OP, []);
    case Discard(e) => ExprLies(p, code, pc, e);
    case Return(e) =>
      AtByte(code, pc, RETURN_OP, EncodeExpr(e));
      ExprLies(p, code, pc + 1, e);
    case If(width, cond, thn) => ScopeLies(p, code, pc, IF_OP, width, cond, thn);
    case While(width, cond, body) => ScopeLies(p, code, pc, WHILE_OP, width, cond, body);
    case IfElse(_, _, _, _, _) => IfElseLies(p, code, pc, s);
  }

  lemma {:induction false} IfElseLies(p: Program, code: seq<byte>, pc: nat, s: Stmt)
    requires s.IfElse? && StmtOk(p, s) && At(code, pc, EncodeStmt(s))
    ensures StmtAt(code, pc, s) && |EncodeStmt(s)| == StmtSize(s)
    decreases s, 0
  {
    AtSplit(code, pc, EncodeScope(IF_OP, s.width, s.cond, s.thn), EncodeElse(s.elseWidth, s.els));
    ScopeLies(p, code, pc, IF_OP, s.width, s.cond, s.thn);
    ElseLies(p, code, pc + 1 + s.width + Size(s.cond) + StmtsSize(s.thn), s.elseWidth, s.els);
  }

  lemma {:induction false} StmtsLie(p: Program, code: seq<byte>, pc: nat, ss: Stmts)
    requires StmtsOk(p, ss) && At(code, pc, EncodeStmts(ss))
    ensures StmtsAt(code, pc, ss) && |EncodeStmts(ss)| == StmtsSize(ss)
    decreases ss, 0
  {
    match ss
    case NoStmts =>
    case MoreStmts(first, rest) =>
      AtSplit(code, pc, EncodeStmt(first), EncodeStmts(rest));
      StmtLies(p, code, pc, first);
      StmtsLie(p, code, pc + StmtSize(first), rest);
  }

  /** Every term and statement takes room and starts with an opcode or name of its own, never with Else. */
  lemma ExprStarts(p: Program, code: seq<byte>, pc: nat, e: Expr)
    requires ExprOk(p, e) && ExprAt(code, pc, e)
    ensures Size(e) > 0 && pc < |code| && code[pc] != ELSE_OP
  {
  }

  lemma StmtStarts(p: Program, code: seq<byte>, pc: nat, s: Stmt)
    requires StmtOk(p, s) && StmtAt(code, pc, s)
    ensures StmtSize(s) > 0 && pc < |code| && code[pc] != ELSE_OP
  {
    if s.Discard? {
      ExprStarts(p, code, pc, s.e);
    }
  }
}
