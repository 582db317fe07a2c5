/** Functions the translator accepts: references resolve, variables are written before they are read. */
module WellFormedness {
  import opened Wrappers
  import opened Rudder
  import opened Specialisation

  /** The variables and statement values a data statement needs are there. */
  predicate StatementOk(s: Statement, vars: set<Name>, refs: set<nat>) {
    match s
    case ReadVariable(x) => x in vars
    case WriteVariable(_, v) => v in refs
    case Compute(_, args) => forall a <- args :: a in refs
    case Assert(c) => c in refs
    case _ => true
  }

  function VarsAfter(s: Statement, vars: set<Name>): set<Name> {
    if s.WriteVariable? then vars + {s.symbol} else vars
  }

  function RefsAfter(s: Statement, k: nat, refs: set<nat>): set<nat> {
    if s.Constant? || s.ReadVariable? || s.Compute? then refs + {k} else refs
  }

  predicate FlowOk(s: Statement, refs: set<nat>) {
    match s
    case Branch(c, _, _) => c in refs
    case Return(vs) => forall v <- vs :: v in refs
    case _ => true
  }

  /** From statement `k` on, the block can be translated to its first control-flow statement. */
  predicate BlockOk(statements: seq<Statement>, k: nat, vars: set<Name>, refs: set<nat>)
    decreases |statements| - k
  {
    k < |statements| &&
    var s := statements[k];
    if IsControlFlow(s) then FlowOk(s, refs)
    else StatementOk(s, vars, refs) && BlockOk(statements, k + 1, VarsAfter(s, vars), RefsAfter(s, k, refs))
  }

  /** The variables written when the block is left. */
  function VarsAtEnd(statements: seq<Statement>, k: nat, vars: set<Name>): set<Name>
    decreases |statements| - k
  {
    if k >= |statements| || IsControlFlow(statements[k]) then vars
    else VarsAtEnd(statements, k + 1, VarsAfter(statements[k], vars))
  }

  predicate GoesTo(s: Statement, b: nat) {
    match s
    case Jump(t) => b == t
    case Branch(_, t, e) => b == t || b == e
    case _ => false
  }

  /** Block `b` may be left for block `c`. */
  ghost predicate Successor(f: Function, b: nat, c: nat) {
    b < |f.blocks| && exists s <- f.blocks[b] :: GoesTo(s, c)
  }

  /** `defined` gives variables that have a value whenever a block is entered. */
  ghost predicate WellFormed(f: Function, defined: seq<set<Name>>) {
    && |defined| == |f.blocks| && f.entry < |f.blocks| && defined[f.entry] <= (set x | x in f.parameters)
    && (forall b :: 0 <= b < |f.blocks| ==> BlockOk(f.blocks[b], 0, defined[b], {}))
    && forall b: nat, c: nat :: Successor(f, b, c) ==>
         c < |f.blocks| && defined[c] <= VarsAtEnd(f.blocks[b], 0, defined[b])
  }

  /** Every jump goes to a later block. */
  ghost predicate Forward(f: Function) {
    f.entry < |f.blocks| && forall b: nat, c: nat :: Successor(f, b, c) ==> b < c < |f.blocks|
  }

  /** Every variable of the store has a value. */
  ghost predicate Definite(store: VariableStore) {
    forall x :: x in store ==> store[x] != Virtual(None)
  }

  /** More variables do no harm. */
  lemma {:induction false} MoreVars(statements: seq<Statement>, k: nat, vars: set<Name>, vars': set<Name>,
      refs: set<nat>)
    requires vars <= vars'
    ensures BlockOk(statements, k, vars, refs) ==> BlockOk(statements, k, vars', refs)
    ensures VarsAtEnd(statements, k, vars) <= VarsAtEnd(statements, k, vars')
    decreases |statements| - k
  {
    if k < |statements| && !IsControlFlow(statements[k]) {
      var s := statements[k];
      MoreVars(statements, k + 1, VarsAfter(s, vars), VarsAfter(s, vars'), RefsAfter(s, k, refs));
    }
  }

  /** The function that returns its argument. */
  function Identity(x: Name): Function {
    Function([x], 1, 0, [[ReadVariable(x), Return([0])]])
  }

  lemma {:induction false} IdentityWellFormed(x: Name)
    ensures WellFormed(Identity(x), [{x}]) && Forward(Identity(x)) && WellTyped(Identity(x))
  {
    var f := Identity(x);
    assert forall b: nat, c: nat :: !Successor(f, b, c);
    assert x in f.parameters;
    assert BlockOk(f.blocks[0], 1, {x}, {0});
  }
}
