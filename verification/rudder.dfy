/** The Rudder intermediate representation and its reference interpreter.

    A function is a list of basic blocks; a block is a list of statements, and a
    statement refers to the values of earlier statements of its own block by
    position.  The meaning of the pure operations is a parameter, shared by the
    interpreter and by the code the translator emits. */
module Rudder {
  import opened Wrappers

  /** A 64-bit machine word. */
  type Word = w: int | 0 <= w < 0x1_0000_0000_0000_0000

  type Name = string

  /** A pure operation (unary, binary, shift, cast, select, bit extract, ...). */
  datatype Operation = Operation(name: string)

  type Meaning = (Operation, seq<Word>) -> Word

  datatype Statement =
    | Constant(constant: Word)
    | ReadVariable(symbol: Name)
    | WriteVariable(symbol: Name, value: nat)
    | Compute(op: Operation, args: seq<nat>)
    | Assert(condition: nat)
    | Jump(target: nat)
    | Branch(condition: nat, trueTarget: nat, falseTarget: nat)
    | Return(values: seq<nat>)
    | Panic

  predicate IsControlFlow(s: Statement) {
    s.Jump? || s.Branch? || s.Return? || s.Panic?
  }

  /** `arity` is the number of returned words: 0 for no return value, n for an n-tuple. */
  datatype Function = Function(parameters: seq<Name>, arity: nat, entry: nat, blocks: seq<seq<Statement>>)

  /** What the type checker guarantees: every return supplies as many values as the return type has. */
  ghost predicate WellTyped(f: Function) {
    forall b, k :: 0 <= b < |f.blocks| && 0 <= k < |f.blocks[b]| && f.blocks[b][k].Return? ==>
      |f.blocks[b][k].values| == f.arity
  }

  type Locals = map<Name, Word>

  /** Local variables plus the values of the statements evaluated so far in the block. */
  datatype Frame = Frame(locals: Locals, values: map<nat, Word>)

  datatype BlockResult =
    | Next(block: nat, locals: Locals)
    | Returned(results: seq<Word>)
    | Panicked

  predicate AllIn<T>(refs: seq<nat>, m: map<nat, T>) {
    forall r <- refs :: r in m
  }

  function Resolve<T>(refs: seq<nat>, m: map<nat, T>): (r: seq<T>)
    requires AllIn(refs, m)
    ensures |r| == |refs| && forall i :: 0 <= i < |refs| ==> r[i] == m[refs[i]]
  {
    seq(|refs|, i requires 0 <= i < |refs| => m[refs[i]])
  }

  /** Evaluates data statement `s`, at position `k`; None is an interpreter panic. */
  function Evaluate(meaning: Meaning, s: Statement, k: nat, fr: Frame): Option<Frame> {
    match s
    case Constant(c) => Some(fr.(values := fr.values[k := c]))
    case ReadVariable(x) =>
      if x in fr.locals then Some(fr.(values := fr.values[k := fr.locals[x]])) else None
    case WriteVariable(x, v) =>
      if v in fr.values then Some(fr.(locals := fr.locals[x := fr.values[v]])) else None
    case Compute(op, args) =>
      if AllIn(args, fr.values)
      then Some(fr.(values := fr.values[k := meaning(op, Resolve(args, fr.values))]))
      else None
    case Assert(c) =>
      if c in fr.values && fr.values[c] != 0 then Some(fr) else None
    case _ => None
  }

  /** Where control goes on control-flow statement `s`. */
  function Leave(s: Statement, fr: Frame): BlockResult {
    match s
    case Jump(t) => Next(t, fr.locals)
    case Branch(c, t, e) =>
      if c in fr.values then Next(if fr.values[c] != 0 then t else e, fr.locals) else Panicked
    case Return(vs) => if AllIn(vs, fr.values) then Returned(Resolve(vs, fr.values)) else Panicked
    case _ => Panicked
  }

  function InterpretFrom(meaning: Meaning, statements: seq<Statement>, k: nat, fr: Frame): BlockResult
    requires k <= |statements|
    decreases |statements| - k
  {
    if k == |statements| then Panicked
    else if IsControlFlow(statements[k]) then Leave(statements[k], fr)
    else
      match Evaluate(meaning, statements[k], k, fr)
      case None => Panicked
      case Some(fr') => InterpretFrom(meaning, statements, k + 1, fr')
  }

  function InterpretBlock(meaning: Meaning, f: Function, b: nat, locals: Locals): BlockResult {
    if b < |f.blocks| then InterpretFrom(meaning, f.blocks[b], 0, Frame(locals, map[])) else Panicked
  }

  /** At most `n` blocks of the interpreter's main loop. */
  function Interpret(meaning: Meaning, f: Function, b: nat, locals: Locals, n: nat): BlockResult
    decreases n
  {
    if n == 0 then Next(b, locals)
    else
      match InterpretBlock(meaning, f, b, locals)
      case Next(b', locals') => Interpret(meaning, f, b', locals', n - 1)
      case r => r
  }

  /** The frame after the first `k` statements, all of them data statements. */
  ghost function Prefix(meaning: Meaning, statements: seq<Statement>, k: nat, locals: Locals): Option<Frame>
    requires k <= |statements|
  {
    if k == 0 then Some(Frame(locals, map[]))
    else
      match Prefix(meaning, statements, k - 1, locals)
      case None => None
      case Some(fr) => Evaluate(meaning, statements[k - 1], k - 1, fr)
  }

  lemma {:induction false} PrefixThenRest(meaning: Meaning, statements: seq<Statement>, k: nat, locals: Locals)
    requires k <= |statements|
    requires forall i :: 0 <= i < k ==> !IsControlFlow(statements[i])
    ensures InterpretFrom(meaning, statements, 0, Frame(locals, map[])) ==
            match Prefix(meaning, statements, k, locals)
            case None => Panicked
            case Some(fr) => InterpretFrom(meaning, statements, k, fr)
  {
    if k != 0 {
      PrefixThenRest(meaning, statements, k - 1, locals);
    }
  }
}
