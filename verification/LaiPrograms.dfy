/** Programs that run with LAI's own operators: what their terms compute, on the machine and by meaning. */
module LaiPrograms {
  import opened Bits
  import opened AmlTypes
  import opened AmlMachine
  import opened AmlInvariant
  import opened AmlOperators
  import opened AmlSyntax
  import opened AmlLayout
  import opened AmlSteps
  import opened AmlSimulation
  import opened AmlCorrectness

  /** Where the C expression has a value. */
  predicate Defined(opcode: byte, y: word) {
    (opcode == MOD_OP ==> y != 0) && (opcode == SHL_OP || opcode == SHR_OP ==> y < 64)
  }

  /** Bit i of what an operator on bits yields; the others have their own meaning. */
  predicate ResultBit(opcode: byte, x: word, y: word, i: nat) {
    if opcode == AND_OP then BitAt(x, i) && BitAt(y, i)
    else if opcode == OR_OP then BitAt(x, i) || BitAt(y, i)
    else if opcode == XOR_OP then BitAt(x, i) != BitAt(y, i)
    else if opcode == NAND_OP then !(BitAt(x, i) && BitAt(y, i))
    else if opcode == NOR_OP then !(BitAt(x, i) || BitAt(y, i))
    else if opcode == SHL_OP then i >= y && BitAt(x, i - y)
    else BitAt(x, i + y)
  }

  /** What the ACPI specification, section 19.6, promises of the binary operators on 64 bits. */
  ghost predicate BinaryMeaning(opcode: byte, x: word, y: word, c: word) {
    if opcode == ADD_OP then c == x + y || c == x + y - WORD_SIZE
    else if opcode == SUBTRACT_OP then c == x - y || c == x - y + WORD_SIZE
    else if opcode == MULTIPLY_OP then exists k: nat :: x * y == k * WORD_SIZE + c
    else if opcode == MOD_OP then c < y && exists k: nat :: x == k * y + c
    else forall i: nat :: i < 64 ==> BitAt(c, i) == ResultBit(opcode, x, y, i)
  }

  /** And of the unary ones that change their operand. */
  ghost predicate UnaryMeaning(opcode: byte, x: word, c: word) {
    if opcode == NOT_OP then forall i: nat :: i < 64 ==> BitAt(c, i) == !BitAt(x, i)
    else if x == 0 then c == 0
    else if opcode == FINDSETLEFTBIT_OP then 1 <= c <= 64 && BitAt(x, c - 1) && forall i: nat :: i >= c ==> !BitAt(x, i)
    else 1 <= c <= 64 && BitAt(x, c - 1) && forall i: nat :: i < c - 1 ==> !BitAt(x, i)
  }

  lemma AnyBit(opcode: byte, x: word, y: word, c: word, i: nat)
    requires opcode in {AND_OP, OR_OP, XOR_OP, NAND_OP, NOR_OP, SHL_OP, SHR_OP} && Compute(opcode, x, y) == Some(c) && i < 64
    ensures BitAt(c, i) == ResultBit(opcode, x, y, i)
  {
    if opcode == SHL_OP || opcode == SHR_OP {
      ShiftedBits(x, y, i);
    } else {
      NegatedBits(x, y, i);
      AndAt(x, y, i);
      OrAt(x, y, i);
      XorAt(x, y, i);
    }
  }

  lemma QuotientLeft(a: nat, m: nat)
    requires m > 0
    ensures exists k: nat :: a == k * m + a % m
  {
    assert a == a / m * m + a % m;
  }

  lemma ArithmeticMeans(opcode: byte, x: word, y: word)
    requires opcode in {ADD_OP, SUBTRACT_OP, MULTIPLY_OP, MOD_OP}
    ensures Compute(opcode, x, y).Some? <==> Defined(opcode, y)
    ensures Defined(opcode, y) ==> BinaryMeaning(opcode, x, y, Compute(opcode, x, y).value)
  {
    if opcode == MULTIPLY_OP {
      QuotientLeft(x * y, WORD_SIZE);
    } else if opcode == MOD_OP && y != 0 {
      QuotientLeft(x, y);
    }
  }

  lemma ComputeMeans(opcode: byte, x: word, y: word)
    requires IsBinary(opcode)
    ensures Compute(opcode, x, y).Some? <==> Defined(opcode, y)
    ensures Defined(opcode, y) ==> BinaryMeaning(opcode, x, y, Compute(opcode, x, y).value)
  {
    if opcode in {ADD_OP, SUBTRACT_OP, MULTIPLY_OP, MOD_OP} {
      ArithmeticMeans(opcode, x, y);
    } else if Defined(opcode, y) {
      var c := Compute(opcode, x, y).value;
      forall i: nat | i < 64 ensures BitAt(c, i) == ResultBit(opcode, x, y, i) {
        AnyBit(opcode, x, y, c, i);
      }
    }
  }

  /** The cells with a value put into a target. */
  function Put(inv: Invocation, t: Target, v: Value): Invocation {
    match t
    case NullTarget => inv
    case LocalTarget(i) => inv.(local := inv.local[i := v])
    case ArgTarget(j) => inv.(arg := inv.arg[j := v])
  }

  function Binary(opcode: byte, a: Expr, b: Expr, t: Target): Expr {
    Operator(opcode, MoreExprs(a, MoreExprs(b, NoExprs)), MoreTargets(t, NoTargets))
  }

  function Unary(opcode: byte, a: Expr, t: Target): Expr {
    Operator(opcode, MoreExprs(a, NoExprs), MoreTargets(t, NoTargets))
  }

  /** A binary term yields what its operator means and stores it in its target; it fails exactly where an operand is no number or C has no value. */
  lemma BinaryTerm(p: Program, fuel: nat, clear: bool, opcode: byte, a: Expr, b: Expr, t: Target, inv: Invocation, x: Value, inv1: Invocation, y: Value, inv2: Invocation)
    returns (r: ExprResult)
    requires ProgramOk(p) && p.reduce == LaiReducer() && IsBinary(opcode) && ExprOk(p, a) && ExprOk(p, b)
    requires EvalExpr(p, fuel, clear, a, inv) == Val(x, inv1) && EvalExpr(p, fuel, false, b, inv1) == Val(y, inv2)
    ensures ExprOk(p, Binary(opcode, a, b, t)) && r == EvalExpr(p, fuel, clear, Binary(opcode, a, b, t), inv)
    ensures r == ExprFault(Panic) <==> !x.Integer? || !y.Integer?
    ensures x.Integer? && y.Integer? ==> (r == ExprFault(Undefined) <==> !Defined(opcode, y.n))
    ensures x.Integer? && y.Integer? && Defined(opcode, y.n) ==>
              r.Val? && r.v.Integer? && BinaryMeaning(opcode, x.n, y.n, r.v.n) && r.inv == Put(inv2, t, r.v)
  {
    BinaryOk(p, opcode, a, b, t);
    TwoOperands(p, fuel, clear, a, b, inv, x, inv1, y, inv2);
    OneTarget(t);
    r := Applies(p, fuel, clear, Binary(opcode, a, b, t), inv, [Object(x), Object(y)], inv2, [TargetOperand(t)]);
    BinaryReduces(opcode, x, y, t, inv2);
  }

  lemma BinaryOk(p: Program, opcode: byte, a: Expr, b: Expr, t: Target)
    requires IsBinary(opcode) && ExprOk(p, a) && ExprOk(p, b)
    ensures ExprOk(p, Binary(opcode, a, b, t)) && ExprsOk(p, Binary(opcode, a, b, t).inputs)
  {
    assert ExprsOk(p, NoExprs) && ExprsOk(p, MoreExprs(b, NoExprs));
    assert Count(NoExprs) == 0 && CountTargets(NoTargets) == 0;
    assert Count(MoreExprs(b, NoExprs)) == 1;
  }

  lemma UnaryOk(p: Program, opcode: byte, a: Expr, t: Target)
    requires IsUnary(opcode) && ExprOk(p, a)
    ensures ExprOk(p, Unary(opcode, a, t)) && ExprsOk(p, Unary(opcode, a, t).inputs)
  {
    assert ExprsOk(p, NoExprs);
    assert Count(NoExprs) == 0 && CountTargets(NoTargets) == 0;
  }

  function Outcome(r: Reduction): ExprResult {
    match r
    case Stuck(f) => ExprFault(f)
    case Reduced(v, inv) => Val(v, inv)
  }

  /** A term whose inputs have come out as operands. */
  lemma Applies(p: Program, fuel: nat, clear: bool, e: Expr, inv: Invocation, operands: seq<Operand>, inv1: Invocation, targets: seq<Operand>) returns (r: ExprResult)
    requires ProgramOk(p) && p.reduce == LaiReducer() && ExprOk(p, e) && e.Operator? && TargetOperands(e.targets) == targets
    requires ExprsOk(p, e.inputs) && EvalExprs(p, fuel, clear, e.inputs, inv) == Vals(operands, inv1)
    requires IsOperator(e.opcode) && |operands| + |targets| == Arity(e.opcode)
    ensures r == EvalExpr(p, fuel, clear, e, inv) == Outcome(Reduce(e.opcode, operands + targets, inv1))
  {
    r := EvalExpr(p, fuel, clear, e, inv);
    assert p.reduce(e.opcode, operands + targets, inv1) == Reduce(e.opcode, operands + targets, inv1);
  }

  lemma BinaryReduces(opcode: byte, x: Value, y: Value, t: Target, inv: Invocation)
    requires IsBinary(opcode)
    ensures var r := Outcome(Reduce(opcode, [Object(x), Object(y)] + [TargetOperand(t)], inv));
            && (r == ExprFault(Panic) <==> !x.Integer? || !y.Integer?)
            && (x.Integer? && y.Integer? ==> (r == ExprFault(Undefined) <==> !Defined(opcode, y.n)))
            && (x.Integer? && y.Integer? && Defined(opcode, y.n) ==>
                  r.Val? && r.v.Integer? && BinaryMeaning(opcode, x.n, y.n, r.v.n) && r.inv == Put(inv, t, r.v))
  {
    var operands := [Object(x), Object(y)] + [TargetOperand(t)];
    assert Reduce(opcode, operands, inv) == ReduceBinary(opcode, operands, inv);
    if x.Integer? && y.Integer? {
      ComputeMeans(opcode, x.n, y.n);
      if Defined(opcode, y.n) {
        StoredIn(t, Integer(Compute(opcode, x.n, y.n).value), inv);
      }
    }
  }

  lemma TwoOperands(p: Program, fuel: nat, clear: bool, a: Expr, b: Expr, inv: Invocation, x: Value, inv1: Invocation, y: Value, inv2: Invocation)
    requires ProgramOk(p) && ExprOk(p, a) && ExprOk(p, b)
    requires EvalExpr(p, fuel, clear, a, inv) == Val(x, inv1) && EvalExpr(p, fuel, false, b, inv1) == Val(y, inv2)
    ensures ExprsOk(p, MoreExprs(a, MoreExprs(b, NoExprs)))
    ensures EvalExprs(p, fuel, clear, MoreExprs(a, MoreExprs(b, NoExprs)), inv) == Vals([Object(x), Object(y)], inv2)
  {
    assert EvalExprs(p, fuel, false, MoreExprs(b, NoExprs), inv1) == Vals([Object(y)], inv2) by {
      assert EvalExprs(p, fuel, false, NoExprs, inv2) == Vals([], inv2);
    }
  }

  lemma OneOperand(p: Program, fuel: nat, clear: bool, a: Expr, inv: Invocation, x: Value, inv1: Invocation)
    requires ProgramOk(p) && ExprOk(p, a) && EvalExpr(p, fuel, clear, a, inv) == Val(x, inv1)
    ensures ExprsOk(p, MoreExprs(a, NoExprs)) && EvalExprs(p, fuel, clear, MoreExprs(a, NoExprs), inv) == Vals([Object(x)], inv1)
  {
    assert EvalExprs(p, fuel, false, NoExprs, inv1) == Vals([], inv1);
  }

  lemma OneTarget(t: Target)
    ensures TargetOperands(MoreTargets(t, NoTargets)) == [TargetOperand(t)]
  {
    assert TargetOperands(NoTargets) == [];
  }

  lemma StoredIn(t: Target, v: Value, inv: Invocation)
    ensures StoreResult(TargetOperand(t), v, inv) == Reduced(v, Put(inv, t, v))
  {
  }

  /** The same for the unary operators; a store takes whatever it is given. */
  lemma UnaryTerm(p: Program, fuel: nat, clear: bool, opcode: byte, a: Expr, t: Target, inv: Invocation, x: Value, inv1: Invocation) returns (r: ExprResult)
    requires ProgramOk(p) && p.reduce == LaiReducer() && IsUnary(opcode) && ExprOk(p, a)
    requires EvalExpr(p, fuel, clear, a, inv) == Val(x, inv1)
    ensures ExprOk(p, Unary(opcode, a, t)) && r == EvalExpr(p, fuel, clear, Unary(opcode, a, t), inv)
    ensures opcode in {STORE_OP, COPYOBJECT_OP} ==> r == Val(x, Put(inv1, t, x))
    ensures opcode !in {STORE_OP, COPYOBJECT_OP} ==>
              && (r == ExprFault(Panic) <==> !x.Integer?)
              && (x.Integer? ==> r.Val? && r.v.Integer? && UnaryMeaning(opcode, x.n, r.v.n) && r.inv == Put(inv1, t, r.v))
  {
    UnaryOk(p, opcode, a, t);
    OneOperand(p, fuel, clear, a, inv, x, inv1);
    OneTarget(t);
    r := Applies(p, fuel, clear, Unary(opcode, a, t), inv, [Object(x)], inv1, [TargetOperand(t)]);
    UnaryReduces(opcode, x, t, inv1);
  }

  lemma UnaryReduces(opcode: byte, x: Value, t: Target, inv: Invocation)
    requires IsUnary(opcode)
    ensures var r := Outcome(Reduce(opcode, [Object(x)] + [TargetOperand(t)], inv));
            && (opcode in {STORE_OP, COPYOBJECT_OP} ==> r == Val(x, Put(inv, t, x)))
            && (opcode !in {STORE_OP, COPYOBJECT_OP} ==>
                  && (r == ExprFault(Panic) <==> !x.Integer?)
                  && (x.Integer? ==> r.Val? && r.v.Integer? && UnaryMeaning(opcode, x.n, r.v.n) && r.inv == Put(inv, t, r.v)))
  {
    var operands := [Object(x)] + [TargetOperand(t)];
    assert Reduce(opcode, operands, inv) == ReduceUnary(opcode, operands, inv);
    if opcode in {STORE_OP, COPYOBJECT_OP} {
      StoredIn(t, x, inv);
    } else if x.Integer? {
      UnaryMeans(opcode, x.n);
      StoredIn(t, Integer(UnaryValue(opcode, x.n)), inv);
    }
  }

  function UnaryValue(opcode: byte, x: word): word {
    if opcode == NOT_OP then NotWord(x) else if opcode == FINDSETLEFTBIT_OP then FindSetLeftBit(x) else FindSetRightBit(x)
  }

  lemma UnaryMeans(opcode: byte, x: word)
    requires opcode in {NOT_OP, FINDSETLEFTBIT_OP, FINDSETRIGHTBIT_OP}
    ensures UnaryMeaning(opcode, x, UnaryValue(opcode, x))
  {
    FoundBits(x);
    forall i: nat | i < 64 ensures BitAt(NotWord(x), i) == !BitAt(x, i) {
      NegatedBits(x, x, i);
    }
  }

  // ------------------------------------------------- the operators of another shape

  function Logical(opcode: byte, a: Expr, b: Expr): Expr {
    Operator(opcode, MoreExprs(a, MoreExprs(b, NoExprs)), NoTargets)
  }

  /** What the comparisons and connectives say of two numbers, and the number that stands for true: 1 or all ones. */
  predicate Holds(opcode: byte, x: word, y: word) {
    if opcode == LAND_OP then x > 0 && y > 0
    else if opcode == LOR_OP then x > 0 || y > 0
    else if opcode == LEQUAL_OP then x == y
    else if opcode == LLESS_OP then x < y
    else x > y
  }

  /** They yield 0 where they do not hold, 1 or all ones where they do, and fail exactly where an operand is no number. */
  lemma LogicalTerm(p: Program, fuel: nat, clear: bool, opcode: byte, a: Expr, b: Expr, inv: Invocation, x: Value, inv1: Invocation, y: Value, inv2: Invocation)
    returns (r: ExprResult)
    requires ProgramOk(p) && p.reduce == LaiReducer() && IsLogical(opcode) && ExprOk(p, a) && ExprOk(p, b)
    requires EvalExpr(p, fuel, clear, a, inv) == Val(x, inv1) && EvalExpr(p, fuel, false, b, inv1) == Val(y, inv2)
    ensures ExprOk(p, Logical(opcode, a, b)) && r == EvalExpr(p, fuel, clear, Logical(opcode, a, b), inv)
    ensures r == ExprFault(if opcode in {LAND_OP, LOR_OP} then Panic else ErrorCode) <==> !x.Integer? || !y.Integer?
    ensures x.Integer? && y.Integer? ==>
              && r.Val? && r.v.Integer? && r.inv == inv2 && (r.v.n != 0 <==> Holds(opcode, x.n, y.n))
              && (r.v.n != 0 ==> r.v.n == if opcode in {LAND_OP, LOR_OP} then 1 else ALL_ONES)
  {
    TwoOperands(p, fuel, clear, a, b, inv, x, inv1, y, inv2);
    LogicalOk(p, opcode, a, b);
    assert TargetOperands(NoTargets) == [];
    r := Applies(p, fuel, clear, Logical(opcode, a, b), inv, [Object(x), Object(y)], inv2, []);
    LogicalReduces(opcode, x, y, inv2);
  }

  lemma LogicalOk(p: Program, opcode: byte, a: Expr, b: Expr)
    requires IsLogical(opcode) && ExprsOk(p, MoreExprs(a, MoreExprs(b, NoExprs)))
    ensures ExprOk(p, Logical(opcode, a, b)) && Arity(opcode) == 2
  {
    assert Count(NoExprs) == 0 && Count(MoreExprs(b, NoExprs)) == 1 && CountTargets(NoTargets) == 0;
  }

  lemma LogicalReduces(opcode: byte, x: Value, y: Value, inv: Invocation)
    requires IsLogical(opcode)
    ensures var r := Outcome(Reduce(opcode, [Object(x), Object(y)] + [], inv));
            && (r == ExprFault(if opcode in {LAND_OP, LOR_OP} then Panic else ErrorCode) <==> !x.Integer? || !y.Integer?)
            && (x.Integer? && y.Integer? ==>
                  && r.Val? && r.v.Integer? && r.inv == inv && (r.v.n != 0 <==> Holds(opcode, x.n, y.n))
                  && (r.v.n != 0 ==> r.v.n == if opcode in {LAND_OP, LOR_OP} then 1 else ALL_ONES))
  {
    var operands := [Object(x), Object(y)] + [];
    assert Reduce(opcode, operands, inv) == ReduceLogical(opcode, operands, inv);
  }

  /** LNot yields 1 for 0 and 0 for any other number. */
  lemma LNotTerm(p: Program, fuel: nat, clear: bool, a: Expr, inv: Invocation, x: Value, inv1: Invocation) returns (r: ExprResult)
    requires ProgramOk(p) && p.reduce == LaiReducer() && ExprOk(p, a) && EvalExpr(p, fuel, clear, a, inv) == Val(x, inv1)
    ensures ExprOk(p, Operator(LNOT_OP, MoreExprs(a, NoExprs), NoTargets))
    ensures r == EvalExpr(p, fuel, clear, Operator(LNOT_OP, MoreExprs(a, NoExprs), NoTargets), inv)
    ensures r == ExprFault(Panic) <==> !x.Integer?
    ensures x.Integer? ==> r == Val(Integer(if x.n > 0 then 0 else 1), inv1)
  {
    OneOperand(p, fuel, clear, a, inv, x, inv1);
    assert Count(NoExprs) == 0 && CountTargets(NoTargets) == 0;
    assert TargetOperands(NoTargets) == [];
    r := Applies(p, fuel, clear, Operator(LNOT_OP, MoreExprs(a, NoExprs), NoTargets), inv, [Object(x)], inv1, []);
    assert [Object(x)] + [] == [Object(x)];
  }

  function Division(a: Expr, b: Expr, rem: Target, quot: Target): Expr {
    Operator(DIVIDE_OP, MoreExprs(a, MoreExprs(b, NoExprs)), MoreTargets(rem, MoreTargets(quot, NoTargets)))
  }

  /**
   Divide puts remainder and quotient into its targets, in this order, and leaves its own
   value undefined; it fails exactly for what is no number and for a divisor of 0.
   */
  lemma DivideTerm(p: Program, fuel: nat, clear: bool, a: Expr, b: Expr, rem: Target, quot: Target, inv: Invocation, x: Value, inv1: Invocation, y: Value, inv2: Invocation)
    returns (r: ExprResult, c: word, d: word)
    requires ProgramOk(p) && p.reduce == LaiReducer() && ExprOk(p, a) && ExprOk(p, b)
    requires EvalExpr(p, fuel, clear, a, inv) == Val(x, inv1) && EvalExpr(p, fuel, false, b, inv1) == Val(y, inv2)
    ensures ExprOk(p, Division(a, b, rem, quot)) && r == EvalExpr(p, fuel, clear, Division(a, b, rem, quot), inv)
    ensures r == ExprFault(Panic) <==> !x.Integer? || !y.Integer?
    ensures x.Integer? && y.Integer? ==> (r == ExprFault(Undefined) <==> y.n == 0)
    ensures x.Integer? && y.Integer? && y.n != 0 ==>
              && x.n == d * y.n + c && c < y.n
              && r == Val(Uninitialised, Put(Put(inv2, rem, Integer(c)), quot, Integer(d)))
  {
    TwoOperands(p, fuel, clear, a, b, inv, x, inv1, y, inv2);
    DivisionOk(p, a, b, rem, quot);
    r := Applies(p, fuel, clear, Division(a, b, rem, quot), inv, [Object(x), Object(y)], inv2, [TargetOperand(rem), TargetOperand(quot)]);
    c, d := DivideReduces(x, y, rem, quot, inv2);
  }

  lemma DivisionOk(p: Program, a: Expr, b: Expr, rem: Target, quot: Target)
    requires ExprsOk(p, MoreExprs(a, MoreExprs(b, NoExprs)))
    ensures ExprOk(p, Division(a, b, rem, quot)) && TargetOperands(Division(a, b, rem, quot).targets) == [TargetOperand(rem), TargetOperand(quot)]
  {
    OneTarget(quot);
    assert Count(NoExprs) == 0 && Count(MoreExprs(b, NoExprs)) == 1;
    assert CountTargets(NoTargets) == 0 && CountTargets(MoreTargets(quot, NoTargets)) == 1;
  }

  lemma DivideReduces(x: Value, y: Value, rem: Target, quot: Target, inv: Invocation) returns (c: word, d: word)
    ensures var r := Outcome(Reduce(DIVIDE_OP, [Object(x), Object(y)] + [TargetOperand(rem), TargetOperand(quot)], inv));
            && (r == ExprFault(Panic) <==> !x.Integer? || !y.Integer?)
            && (x.Integer? && y.Integer? ==> (r == ExprFault(Undefined) <==> y.n == 0))
            && (x.Integer? && y.Integer? && y.n != 0 ==>
                  x.n == d * y.n + c && c < y.n && r == Val(Uninitialised, Put(Put(inv, rem, Integer(c)), quot, Integer(d))))
  {
    var operands := [Object(x), Object(y)] + [TargetOperand(rem), TargetOperand(quot)];
    assert Reduce(DIVIDE_OP, operands, inv) == ReduceDivide(operands, inv);
    c, d := 0, 0;
    if x.Integer? && y.Integer? && y.n != 0 {
      c, d := Divided(x.n, y.n);
      StoredIn(rem, Integer(c), inv);
      StoredIn(quot, Integer(d), Put(inv, rem, Integer(c)));
    }
  }

  lemma Divided(x: word, y: word) returns (c: word, d: word)
    requires y != 0
    ensures c == x % y && d == x / y && x == d * y + c && c < y
  {
    c, d := x % y, x / y;
  }

  /** The number in a target, if there is one. */
  function NumberIn(inv: Invocation, t: Target): Value {
    match t
    case NullTarget => Uninitialised
    case LocalTarget(i) => inv.local[i]
    case ArgTarget(j) => inv.arg[j]
  }

  /** Increment and Decrement step a local or an argument by one, around the ends of 64 bits, and fail exactly where it holds no number. */
  lemma StepTerm(p: Program, fuel: nat, clear: bool, opcode: byte, t: Target, inv: Invocation) returns (r: ExprResult)
    requires ProgramOk(p) && p.reduce == LaiReducer() && opcode in {INCREMENT_OP, DECREMENT_OP}
    ensures ExprOk(p, Operator(opcode, NoExprs, MoreTargets(t, NoTargets)))
    ensures r == EvalExpr(p, fuel, clear, Operator(opcode, NoExprs, MoreTargets(t, NoTargets)), inv)
    ensures r == ExprFault(Panic) <==> !NumberIn(inv, t).Integer?
    ensures NumberIn(inv, t).Integer? ==>
              var x := NumberIn(inv, t).n;
              && r.Val? && r.v.Integer? && r.inv == Put(inv, t, r.v)
              && (opcode == INCREMENT_OP ==> r.v.n == x + 1 || (x == ALL_ONES && r.v.n == 0))
              && (opcode == DECREMENT_OP ==> r.v.n == x - 1 || (x == 0 && r.v.n == ALL_ONES))
  {
    assert EvalExprs(p, fuel, clear, NoExprs, inv) == Vals([], inv);
    assert ExprsOk(p, NoExprs) && Count(NoExprs) == 0 && CountTargets(NoTargets) == 0;
    OneTarget(t);
    r := Applies(p, fuel, clear, Operator(opcode, NoExprs, MoreTargets(t, NoTargets)), inv, [], inv, [TargetOperand(t)]);
    assert [] + [TargetOperand(t)] == [TargetOperand(t)];
    if NumberIn(inv, t).Integer? {
      var x: int := NumberIn(inv, t).n;
      StoredIn(t, Integer(Wrap(if opcode == INCREMENT_OP then x + 1 else x - 1)), inv);
    }
  }

  /** On the machine: the turns spent on any encoded term that comes out leave its value as an operand, with the cells its meaning gives. */
  lemma TermRuns(p: Program, ms: Platform, fuel: nat, e: Expr, s: State, v: Value, inv: Invocation) returns (n: nat)
    requires ProgramOk(p) && ms == Compile(p) && ExprOk(p, e) && Expects(s, ObjectMode) && Room(s, Size(e)) && ExprAt(Code(s), Pc(s), e)
    requires EvalExpr(p, fuel, s.ops == [], e, Cells(s)) == Val(v, inv)
    ensures Run(LaiTurn(ms), s, n) == Next(PushOperand(Advance(s, Size(e), inv), Object(v)))
  {
    LaiTurnPerforms(ms);
    n := SimExpr(p, ms, LaiTurn(ms), fuel, ObjectMode, e, s);
  }

  /** On the machine: the turns spent on an encoded binary term leave its result as an operand and in its target. */
  lemma BinaryRuns(p: Program, ms: Platform, fuel: nat, opcode: byte, a: Expr, b: Expr, t: Target, s: State, x: word, inv1: Invocation, y: word, inv2: Invocation)
    returns (n: nat, c: word)
    requires ProgramOk(p) && ms == Compile(p) && p.reduce == LaiReducer() && IsBinary(opcode) && ExprOk(p, a) && ExprOk(p, b) && Defined(opcode, y)
    requires Expects(s, ObjectMode) && Room(s, Size(Binary(opcode, a, b, t))) && ExprAt(Code(s), Pc(s), Binary(opcode, a, b, t))
    requires EvalExpr(p, fuel, s.ops == [], a, Cells(s)) == Val(Integer(x), inv1) && EvalExpr(p, fuel, false, b, inv1) == Val(Integer(y), inv2)
    ensures BinaryMeaning(opcode, x, y, c)
    ensures Run(LaiTurn(ms), s, n) ==
            Next(PushOperand(Advance(s, Size(Binary(opcode, a, b, t)), Put(inv2, t, Integer(c))), Object(Integer(c))))
  {
    var r := BinaryTerm(p, fuel, s.ops == [], opcode, a, b, t, Cells(s), Integer(x), inv1, Integer(y), inv2);
    c := r.v.n;
    n := TermRuns(p, ms, fuel, Binary(opcode, a, b, t), s, r.v, r.inv);
  }

  lemma UnaryRuns(p: Program, ms: Platform, fuel: nat, opcode: byte, a: Expr, t: Target, s: State, x: word, inv1: Invocation) returns (n: nat, c: word)
    requires ProgramOk(p) && ms == Compile(p) && p.reduce == LaiReducer() && opcode in {NOT_OP, FINDSETLEFTBIT_OP, FINDSETRIGHTBIT_OP} && ExprOk(p, a)
    requires Expects(s, ObjectMode) && Room(s, Size(Unary(opcode, a, t))) && ExprAt(Code(s), Pc(s), Unary(opcode, a, t))
    requires EvalExpr(p, fuel, s.ops == [], a, Cells(s)) == Val(Integer(x), inv1)
    ensures UnaryMeaning(opcode, x, c)
    ensures Run(LaiTurn(ms), s, n) ==
            Next(PushOperand(Advance(s, Size(Unary(opcode, a, t)), Put(inv1, t, Integer(c))), Object(Integer(c))))
  {
    var r := UnaryTerm(p, fuel, s.ops == [], opcode, a, t, Cells(s), Integer(x), inv1);
    c := r.v.n;
    n := TermRuns(p, ms, fuel, Unary(opcode, a, t), s, r.v, r.inv);
  }

  /** A method that returns a binary term of two of its arguments: on the machine it ends with the operator's result for them. */
  lemma MethodOfTwo(p: Program, name: seq<byte>, opcode: byte, i: ArgIndex, j: ArgIndex, inv: Invocation, x: word, y: word) returns (n: nat, c: word)
    requires ProgramOk(p) && p.reduce == LaiReducer() && name in p.defs && IsBinary(opcode) && Defined(opcode, y)
    requires p.defs[name].body == MoreStmts(Return(Binary(opcode, ArgVar(i), ArgVar(j), NullTarget)), NoStmts)
    requires inv.arg[i] == Integer(x) && inv.arg[j] == Integer(y)
    ensures BinaryMeaning(opcode, x, y, c) && MachineHalts(p, name, inv, n, Yields(Integer(c)))
  {
    var term := Binary(opcode, ArgVar(i), ArgVar(j), NullTarget);
    var r := BinaryTerm(p, 0, true, opcode, ArgVar(i), ArgVar(j), NullTarget, inv, Integer(x), inv, Integer(y), inv);
    c := r.v.n;
    assert ExecStmt(p, 0, true, InMethod, Return(term), inv) == Returned(r.v, r.inv);
    assert ExecStmts(p, 0, true, InMethod, p.defs[name].body, inv) == Returned(r.v, r.inv);
    n := MachineFollows(p, name, inv, 0);
  }
}
