/** What a called method sees: the values of the call's arguments in their order, and nothing else. */
module AmlCalls {
  import opened AmlTypes
  import opened AmlMachine
  import opened AmlInvariant
  import opened AmlSyntax
  import opened AmlLayout
  import opened AmlSteps
  import opened AmlSimulation
  import opened LaiPrograms

  /** Argument number k of a list. */
  function Nth(es: Exprs, k: nat): Expr
    requires k < Count(es)
  {
    if k == 0 then es.first else Nth(es.rest, k - 1)
  }

  lemma {:induction false} NthOk(p: Program, es: Exprs, k: nat)
    requires ExprsOk(p, es) && k < Count(es)
    ensures ExprOk(p, Nth(es, k))
  {
    if k > 0 {
      NthOk(p, es.rest, k - 1);
    }
  }

  /** Argument k comes out as vs[k], and takes the caller's cells from invs[k] to invs[k + 1]. */
  predicate YieldsAt(p: Program, fuel: nat, es: Exprs, invs: seq<Invocation>, vs: seq<Value>, k: nat)
    requires ProgramOk(p) && ExprsOk(p, es) && |vs| == Count(es) && |invs| == |vs| + 1 && k < |vs|
  {
    NthOk(p, es, k);
    EvalExpr(p, fuel, false, Nth(es, k), invs[k]) == Val(vs[k], invs[k + 1])
  }

  /** The arguments come out one after the other as vs. */
  ghost predicate EachYields(p: Program, fuel: nat, es: Exprs, invs: seq<Invocation>, vs: seq<Value>)
    requires ProgramOk(p) && ExprsOk(p, es)
  {
    && |vs| == Count(es) && |invs| == |vs| + 1
    && forall k: nat {:trigger YieldsAt(p, fuel, es, invs, vs, k)} :: k < |vs| ==> YieldsAt(p, fuel, es, invs, vs, k)
  }

  function Objects(vs: seq<Value>): (r: seq<Operand>)
    ensures |r| == |vs| && forall k {:trigger r[k]} :: 0 <= k < |vs| ==> r[k] == Object(vs[k])
  {
    if vs == [] then [] else [Object(vs[0])] + Objects(vs[1..])
  }

  lemma {:induction false} Operands(p: Program, fuel: nat, es: Exprs, invs: seq<Invocation>, vs: seq<Value>)
    requires ProgramOk(p) && ExprsOk(p, es) && EachYields(p, fuel, es, invs, vs)
    ensures EvalExprs(p, fuel, false, es, invs[0]) == Vals(Objects(vs), invs[|vs|])
    decreases es
  {
    if es.MoreExprs? {
      assert YieldsAt(p, fuel, es, invs, vs, 0);
      forall k: nat | k < |vs| - 1 ensures YieldsAt(p, fuel, es.rest, invs[1..], vs[1..], k) {
        assert YieldsAt(p, fuel, es, invs, vs, k + 1);
      }
      Operands(p, fuel, es.rest, invs[1..], vs[1..]);
    }
  }

  /** The body of a method that does no more than return a term. */
  function Returning(e: Expr): Stmts {
    MoreStmts(Return(e), NoStmts)
  }

  lemma BodyReturns(p: Program, fuel: nat, clear: bool, e: Expr, inv: Invocation, v: Value, inv1: Invocation)
    requires ProgramOk(p) && ExprOk(p, e) && EvalExpr(p, fuel, clear, e, inv) == Val(v, inv1)
    ensures StmtsOk(p, Returning(e)) && ExecStmts(p, fuel, clear, InMethod, Returning(e), inv) == Returned(v, inv1)
  {
    assert StmtsOk(p, NoStmts);
    assert ExecStmt(p, fuel, clear, InMethod, Return(e), inv) == Returned(v, inv1);
  }

  /** The cells of the callee: arguments from the left, everything else uninitialised. */
  lemma CalleeCells(vs: seq<Value>)
    requires |vs| <= 7
    ensures forall i: ArgIndex {:trigger Arguments(Objects(vs)).arg[i]} :: Arguments(Objects(vs)).arg[i] == if i < |vs| then vs[i] else Uninitialised
    ensures forall l: LocalIndex {:trigger Arguments(Objects(vs)).local[l]} :: Arguments(Objects(vs)).local[l] == Uninitialised
  {
  }

  lemma CallReturns(p: Program, fuel: nat, clear: bool, name: seq<byte>, args: Exprs, invs: seq<Invocation>, vs: seq<Value>, e: Expr, v: Value, inv': Invocation)
    requires ProgramOk(p) && ExprOk(p, Call(name, args)) && fuel > 0 && name in p.defs && p.defs[name].body == Returning(e) && ExprOk(p, e)
    requires EachYields(p, fuel, args, invs, vs) && EvalExpr(p, fuel - 1, clear, e, Arguments(Objects(vs))) == Val(v, inv')
    ensures EvalExpr(p, fuel, clear, Call(name, args), invs[0]) == Val(v, invs[|vs|])
  {
    Operands(p, fuel, args, invs, vs);
    BodyReturns(p, fuel - 1, clear, e, Arguments(Objects(vs)), v, inv');
  }

  /**
   A call of a method that returns its argument i yields the value of the call's argument i,
   and no value if there is none; the caller's cells are as its arguments left them.
   */
  lemma CallPasses(p: Program, fuel: nat, clear: bool, name: seq<byte>, args: Exprs, invs: seq<Invocation>, vs: seq<Value>, i: ArgIndex)
    requires ProgramOk(p) && ExprOk(p, Call(name, args)) && fuel > 0 && name in p.defs && p.defs[name].body == Returning(ArgVar(i))
    requires EachYields(p, fuel, args, invs, vs)
    ensures EvalExpr(p, fuel, clear, Call(name, args), invs[0]) == Val(if i < |vs| then vs[i] else Uninitialised, invs[|vs|])
  {
    CalleeCells(vs);
    CallReturns(p, fuel, clear, name, args, invs, vs, ArgVar(i), if i < |vs| then vs[i] else Uninitialised, Arguments(Objects(vs)));
  }

  /** No local of the callee has a value, whatever the caller's hold. */
  lemma CallStartsEmpty(p: Program, fuel: nat, clear: bool, name: seq<byte>, args: Exprs, invs: seq<Invocation>, vs: seq<Value>, l: LocalIndex)
    requires ProgramOk(p) && ExprOk(p, Call(name, args)) && fuel > 0 && name in p.defs && p.defs[name].body == Returning(LocalVar(l))
    requires EachYields(p, fuel, args, invs, vs)
    ensures EvalExpr(p, fuel, clear, Call(name, args), invs[0]) == Val(Uninitialised, invs[|vs|])
  {
    CalleeCells(vs);
    CallReturns(p, fuel, clear, name, args, invs, vs, LocalVar(l), Uninitialised, Arguments(Objects(vs)));
  }

  /** On the machine: the turns spent on the encoded call leave that value as an operand of the caller. */
  lemma CallPassesRun(p: Program, ms: Platform, fuel: nat, name: seq<byte>, args: Exprs, s: State, invs: seq<Invocation>, vs: seq<Value>, i: ArgIndex) returns (n: nat)
    requires ProgramOk(p) && ms == Compile(p) && ExprOk(p, Call(name, args)) && fuel > 0 && name in p.defs && p.defs[name].body == Returning(ArgVar(i))
    requires Expects(s, ObjectMode) && Room(s, Size(Call(name, args))) && ExprAt(Code(s), Pc(s), Call(name, args))
    requires EachYields(p, fuel, args, invs, vs) && invs[0] == Cells(s)
    ensures Run(LaiTurn(ms), s, n) ==
            Next(PushOperand(Advance(s, Size(Call(name, args)), invs[|vs|]), Object(if i < |vs| then vs[i] else Uninitialised)))
  {
    CallPasses(p, fuel, s.ops == [], name, args, invs, vs, i);
    n := TermRuns(p, ms, fuel, Call(name, args), s, if i < |vs| then vs[i] else Uninitialised, invs[|vs|]);
  }

  lemma CallStartsEmptyRun(p: Program, ms: Platform, fuel: nat, name: seq<byte>, args: Exprs, s: State, invs: seq<Invocation>, vs: seq<Value>, l: LocalIndex) returns (n: nat)
    requires ProgramOk(p) && ms == Compile(p) && ExprOk(p, Call(name, args)) && fuel > 0 && name in p.defs && p.defs[name].body == Returning(LocalVar(l))
    requires Expects(s, ObjectMode) && Room(s, Size(Call(name, args))) && ExprAt(Code(s), Pc(s), Call(name, args))
    requires EachYields(p, fuel, args, invs, vs) && invs[0] == Cells(s)
    ensures Run(LaiTurn(ms), s, n) == Next(PushOperand(Advance(s, Size(Call(name, args)), invs[|vs|]), Object(Uninitialised)))
  {
    CallStartsEmpty(p, fuel, s.ops == [], name, args, invs, vs, l);
    n := TermRuns(p, ms, fuel, Call(name, args), s, Uninitialised, invs[|vs|]);
  }

  /**
   A method that applies an operator to two of its arguments, called with at least that many:
   the call yields what the operator means for the values of those arguments, in this order.
   */
  lemma CallComputes(p: Program, fuel: nat, clear: bool, name: seq<byte>, args: Exprs, invs: seq<Invocation>, vs: seq<Value>, opcode: byte, i: ArgIndex, j: ArgIndex)
    returns (c: word)
    requires ProgramOk(p) && p.reduce == LaiReducer() && IsBinary(opcode) && ExprOk(p, Call(name, args)) && fuel > 0 && name in p.defs
    requires p.defs[name].body == Returning(Binary(opcode, ArgVar(i), ArgVar(j), NullTarget))
    requires EachYields(p, fuel, args, invs, vs) && i < |vs| && j < |vs| && vs[i].Integer? && vs[j].Integer? && Defined(opcode, vs[j].n)
    ensures EvalExpr(p, fuel, clear, Call(name, args), invs[0]) == Val(Integer(c), invs[|vs|])
    ensures BinaryMeaning(opcode, vs[i].n, vs[j].n, c)
  {
    CalleeCells(vs);
    var inv := Arguments(Objects(vs));
    var r := BinaryTerm(p, fuel - 1, clear, opcode, ArgVar(i), ArgVar(j), NullTarget, inv, vs[i], inv, vs[j], inv);
    c := r.v.n;
    CallReturns(p, fuel, clear, name, args, invs, vs, Binary(opcode, ArgVar(i), ArgVar(j), NullTarget), r.v, r.inv);
  }
}
