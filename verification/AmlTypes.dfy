/** Values, stack items and machine states of the AML interpreter. */
module AmlTypes {

  type byte = x: int | 0 <= x < 0x100

  /** uint64_t */
  type word = x: int | 0 <= x < 0x1_0000_0000_0000_0000
  const WORD_SIZE: int := 0x1_0000_0000_0000_0000

  datatype Option<+T> = None | Some(value: T)

  /** lai_variable_t restricted to integers; Uninitialised is a zeroed variable. */
  datatype Value = Uninitialised | Integer(n: word)

  /** struct lai_operand */
  datatype Operand =
    | Object(v: Value)
    | NullName
    | ArgName(index: nat)
    | LocalName(index: nat)
    | MethodName(name: seq<byte>)

  datatype Mode = ExecMode | ObjectMode | ReferenceMode

  datatype InvocationCells = InvocationCells(arg: seq<Value>, local: seq<Value>)

  /** struct lai_invocation: seven arguments and eight locals. */
  type Invocation = i: InvocationCells | |i.arg| == 7 && |i.local| == 8
    witness InvocationCells(seq(7, _ => Uninitialised), seq(8, _ => Uninitialised))

  /** struct lai_ctxitem */
  datatype Context = Context(code: seq<byte>, inv: Invocation)

  /** struct lai_blkitem */
  datatype Block = Block(pc: nat, limit: nat)

  /** lai_stackitem_t */
  datatype Item =
    | MethodItem(wantResult: bool)
    | LoopItem(frame: nat, iterating: bool, pred: nat)
    | CondItem(frame: nat, branch: bool, hasElse: bool, elsePc: nat, elseLimit: nat)
    | OpItem(frame: nat, opcode: byte, wantResult: bool)
    | InvokeItem(frame: nat, argc: nat, wantResult: bool)
    | ReturnItem(frame: nat)

  /** A method node: flags give argc, pointer and size give the code. */
  datatype Method = Method(argc: nat, code: seq<byte>)

  /** What an operator yields for its operands and the cells of the running method. */
  datatype Reduction = Reduced(result: Value, inv: Invocation) | Stuck(f: CodeFault)
  type Reducer = (byte, seq<Operand>, Invocation) -> Reduction

  /** The methods that names resolve to, and the meaning of the operators. */
  datatype Platform = Platform(nodes: map<seq<byte>, Method>, reduce: Reducer)

  /** A stack seen from its top. */
  datatype Stack<T> = Empty | Entry(top: T, below: Stack<T>)

  /** lai_state_t; operands are addressed from the bottom of their stack. */
  datatype State = State(ctx: Stack<Context>, blk: Stack<Block>, stack: Stack<Item>, ops: seq<Operand>)

  /** Why a run stops early. */
  datatype Fault =
    | Panic        // lai_panic() or a failed LAI_ENSURE() on the executed code
    | ErrorCode    // a lai_api_error_t other than LAI_ERROR_NONE
    | Undefined    // division by zero, shift by 64 or more
    | OutOfCode    // bytes behind the end of the method are needed
    | Unsupported  // an opcode outside the modelled set
    | Corrupt      // the four stacks disagree: never reachable, see AmlInvariant

  /** What the executed code can be blamed for. */
  type CodeFault = f: Fault | f != Corrupt witness Panic

  datatype Outcome = Next(s: State) | Stop(f: Fault)

  function Push<T>(s: Stack<T>, x: T): Stack<T> {
    Entry(x, s)
  }

  function Top<T>(s: Stack<T>): T
    requires s.Entry?
  {
    s.top
  }

  function Pop<T>(s: Stack<T>): Stack<T>
    requires s.Entry?
  {
    s.below
  }

  function Depth<T>(s: Stack<T>): nat {
    if s.Empty? then 0 else 1 + Depth(s.below)
  }
}
