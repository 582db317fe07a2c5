/** What it means for emitted code to keep step with the interpreter.

    The translator specialises a Rudder block on a variable store: each variable is
    either virtual (its value is a known node) or lives in a stack slot.  `Tracks`
    relates the code emitted so far for a block with the statements it came from,
    for every machine and every set of locals that the entry store describes. */
module Specialisation {
  import opened Wrappers
  import opened Rudder
  import opened EmittedCode

  datatype Variable = Virtual(node: Option<Node>) | Stack(slot: nat)

  type VariableStore = map<Name, Variable>

  function VariableValue(v: Variable, m: Machine): Option<Word> {
    match v
    case Virtual(None) => None
    case Virtual(Some(n)) => Some(NodeValue(n, m))
    case Stack(s) => Some(SlotValue(s, m))
  }

  /** The store describes these locals on this machine. */
  ghost predicate Matches(store: VariableStore, m: Machine, locals: Locals) {
    && store.Keys == locals.Keys
    && forall x :: x in store ==> VariableValue(store[x], m) == Some(locals[x])
  }

  predicate NodeBelow(n: Node, t: nat) {
    n.Temp? ==> n.id < t
  }

  ghost predicate NodesBelow(nodes: map<nat, Node>, t: nat) {
    forall k :: k in nodes ==> NodeBelow(nodes[k], t)
  }

  /** Temporaries are already assigned, and a variable on the stack is in its own promoted slot. */
  ghost predicate StoreBelow(store: VariableStore, t: nat, promoted: map<Name, nat>) {
    forall x :: x in store ==>
      match store[x]
      case Virtual(None) => true
      case Virtual(Some(n)) => NodeBelow(n, t)
      case Stack(s) => x in promoted && promoted[x] == s
  }

  ghost predicate Injective(promoted: map<Name, nat>) {
    forall x, y :: x in promoted && y in promoted && promoted[x] == promoted[y] ==> x == y
  }

  ghost predicate NodesMatch(nodes: map<nat, Node>, m: Machine, values: map<nat, Word>) {
    && nodes.Keys == values.Keys
    && forall k :: k in nodes ==> NodeValue(nodes[k], m) == values[k]
  }

  ghost predicate InStep(m: Machine, fr: Frame, store: VariableStore, nodes: map<nat, Node>) {
    Matches(store, m, fr.locals) && NodesMatch(nodes, m, fr.values)
  }

  ghost predicate BothInStep(m: Option<Machine>, fr: Option<Frame>, store: VariableStore, nodes: map<nat, Node>) {
    (m.None? && fr.None?) || (m.Some? && fr.Some? && InStep(m.value, fr.value, store, nodes))
  }

  ghost predicate Tracks(
    meaning: Meaning, statements: seq<Statement>, k: nat,
    entry: VariableStore, code: Code, store: VariableStore, nodes: map<nat, Node>)
  {
    && k <= |statements|
    && Straight(code)
    && forall m, locals {:trigger Matches(entry, m, locals)} :: Matches(entry, m, locals) ==>
         BothInStep(RunStraight(meaning, code, m), Prefix(meaning, statements, k, locals), store, nodes)
  }

  /** Statement `s` at position `k` is implemented by `more`, whatever the state in step is. */
  ghost predicate Implements(
    meaning: Meaning, s: Statement, k: nat, more: Code,
    store: VariableStore, nodes: map<nat, Node>, store': VariableStore, nodes': map<nat, Node>)
  {
    && Straight(more)
    && forall m, fr {:trigger InStep(m, fr, store, nodes)} :: InStep(m, fr, store, nodes) ==>
         BothInStep(RunStraight(meaning, more, m), Evaluate(meaning, s, k, fr), store', nodes')
  }

  lemma {:induction false} TracksStart(meaning: Meaning, statements: seq<Statement>, entry: VariableStore)
    ensures Tracks(meaning, statements, 0, entry, [], entry, map[])
  {}

  lemma {:induction false} TracksExtend(
    meaning: Meaning, statements: seq<Statement>, k: nat, entry: VariableStore,
    code: Code, more: Code,
    store: VariableStore, nodes: map<nat, Node>, store': VariableStore, nodes': map<nat, Node>)
    requires k < |statements|
    requires Tracks(meaning, statements, k, entry, code, store, nodes)
    requires Implements(meaning, statements[k], k, more, store, nodes, store', nodes')
    ensures Tracks(meaning, statements, k + 1, entry, code + more, store', nodes')
  {
    forall m, locals | Matches(entry, m, locals)
      ensures Straight(code + more)
      ensures BothInStep(RunStraight(meaning, code + more, m), Prefix(meaning, statements, k + 1, locals), store',
                nodes')
    {
      RunStraightAppend(meaning, code, more, m);
    }
  }

  lemma {:induction false} RunOne(meaning: Meaning, i: Instruction, m: Machine)
    requires !Ends(i)
    ensures Straight([i]) && RunStraight(meaning, [i], m) == Step(meaning, i, m)
  {
    assert [i][..0] == [];
  }

  /** Assigning a fresh temporary changes no node and no variable already in use. */
  lemma {:induction false} FreshTemp(m: Machine, t: nat, w: Word, fr: Frame, store: VariableStore, nodes: map<nat,
      Node>,
                  k: nat, promoted: map<Name, nat>)
    requires InStep(m, fr, store, nodes)
    requires StoreBelow(store, t, promoted) && NodesBelow(nodes, t)
    ensures InStep(m.(temps := m.temps[t := w]), fr.(values := fr.values[k := w]), store, nodes[k := Temp(t)])
  {
    var m' := m.(temps := m.temps[t := w]);
    forall x | x in store ensures VariableValue(store[x], m') == Some(fr.locals[x]) {
      assert VariableValue(store[x], m) == Some(fr.locals[x]);
    }
  }

  lemma {:induction false} ConstantImplemented(meaning: Meaning, s: Statement, k: nat, store: VariableStore,
      nodes: map<nat, Node>)
    requires s.Constant?
    ensures Implements(meaning, s, k, [], store, nodes, store, nodes[k := Const(s.constant)])
  {}

  lemma {:induction false} VirtualReadImplemented(
    meaning: Meaning, s: Statement, k: nat, store: VariableStore, nodes: map<nat, Node>)
    requires s.ReadVariable? && s.symbol in store
    requires store[s.symbol].Virtual? && store[s.symbol].node.Some?
    ensures Implements(meaning, s, k, [], store, nodes, store, nodes[k := store[s.symbol].node.value])
  {}

  lemma {:induction false} StackReadImplemented(
    meaning: Meaning, s: Statement, k: nat, store: VariableStore, nodes: map<nat, Node>,
    t: nat, promoted: map<Name, nat>)
    requires s.ReadVariable? && s.symbol in store && store[s.symbol].Stack?
    requires StoreBelow(store, t, promoted) && NodesBelow(nodes, t)
    ensures Implements(meaning, s, k, [Load(t, store[s.symbol].slot)], store, nodes, store, nodes[k := Temp(t)])
  {
    var i := Load(t, store[s.symbol].slot);
    forall m, fr | InStep(m, fr, store, nodes)
      ensures BothInStep(RunStraight(meaning, [i], m), Evaluate(meaning, s, k, fr), store, nodes[k := Temp(t)])
    {
      RunOne(meaning, i, m);
      FreshTemp(m, t, SlotValue(store[s.symbol].slot, m), fr, store, nodes, k, promoted);
    }
  }

  lemma {:induction false} VirtualWriteImplemented(
    meaning: Meaning, s: Statement, k: nat, store: VariableStore, nodes: map<nat, Node>)
    requires s.WriteVariable? && s.value in nodes
    ensures Implements(meaning, s, k, [], store, nodes, store[s.symbol := Virtual(Some(nodes[s.value]))], nodes)
  {}

  lemma {:induction false} StackWriteImplemented(
    meaning: Meaning, s: Statement, k: nat, store: VariableStore, nodes: map<nat, Node>,
    t: nat, slot: nat, promoted: map<Name, nat>)
    requires s.WriteVariable? && s.value in nodes
    requires StoreBelow(store, t, promoted) && Injective(promoted)
    requires s.symbol in promoted && promoted[s.symbol] == slot
    ensures Implements(meaning, s, k, [Store(slot, nodes[s.value])], store, nodes, store[s.symbol := Stack(slot)],
              nodes)
  {
    var n := nodes[s.value];
    var i := Store(slot, n);
    var store' := store[s.symbol := Stack(slot)];
    forall m, fr | InStep(m, fr, store, nodes)
      ensures BothInStep(RunStraight(meaning, [i], m), Evaluate(meaning, s, k, fr), store', nodes)
    {
      RunOne(meaning, i, m);
      var m' := m.(stack := m.stack[slot := NodeValue(n, m)]);
      var locals' := fr.locals[s.symbol := fr.values[s.value]];
      forall x | x in store' ensures VariableValue(store'[x], m') == Some(locals'[x]) {
        if x != s.symbol {
          assert VariableValue(store[x], m) == Some(fr.locals[x]);
        }
      }
      assert Matches(store', m', locals');
      assert NodesMatch(nodes, m', fr.values);
    }
  }

  lemma {:induction false} FoldImplemented(
    meaning: Meaning, s: Statement, k: nat, store: VariableStore, nodes: map<nat, Node>, words: seq<Word>)
    requires s.Compute? && AllIn(s.args, nodes)
    requires |words| == |s.args| && forall i :: 0 <= i < |s.args| ==> nodes[s.args[i]] == Const(words[i])
    ensures Implements(meaning, s, k, [], store, nodes, store, nodes[k := Const(meaning(s.op, words))])
  {
    forall m, fr | InStep(m, fr, store, nodes)
      ensures BothInStep(RunStraight(meaning, [], m), Evaluate(meaning, s, k, fr),
                         store, nodes[k := Const(meaning(s.op, words))])
    {
      assert Resolve(s.args, fr.values) == words;
    }
  }

  lemma {:induction false} ComputeImplemented(
    meaning: Meaning, s: Statement, k: nat, store: VariableStore, nodes: map<nat, Node>,
    t: nat, promoted: map<Name, nat>)
    requires s.Compute? && AllIn(s.args, nodes)
    requires StoreBelow(store, t, promoted) && NodesBelow(nodes, t)
    ensures Implements(meaning, s, k, [Operate(t, s.op, Resolve(s.args, nodes))],
                       store, nodes, store, nodes[k := Temp(t)])
  {
    var args := Resolve(s.args, nodes);
    var i := Operate(t, s.op, args);
    forall m, fr | InStep(m, fr, store, nodes)
      ensures BothInStep(RunStraight(meaning, [i], m), Evaluate(meaning, s, k, fr), store, nodes[k := Temp(t)])
    {
      RunOne(meaning, i, m);
      assert NodeValues(args, m) == Resolve(s.args, fr.values);
      FreshTemp(m, t, meaning(s.op, NodeValues(args, m)), fr, store, nodes, k, promoted);
    }
  }

  /** The code of an assertion: nothing or a trap when its condition is known, a check otherwise. */
  function AssertCode(n: Node): (c: Code)
    ensures Straight(c)
  {
    match n
    case Const(w) => if w == 0 then [Trap] else []
    case Temp(_) => [Check(n)]
  }

  lemma {:induction false} AssertImplemented(meaning: Meaning, s: Statement, k: nat, store: VariableStore,
      nodes: map<nat, Node>)
    requires s.Assert? && s.condition in nodes
    ensures Implements(meaning, s, k, AssertCode(nodes[s.condition]), store, nodes, store, nodes)
  {
    var n := nodes[s.condition];
    forall m, fr | InStep(m, fr, store, nodes)
      ensures BothInStep(RunStraight(meaning, AssertCode(n), m), Evaluate(meaning, s, k, fr), store, nodes)
    {
      if |AssertCode(n)| == 1 {
        RunOne(meaning, AssertCode(n)[0], m);
      }
    }
  }
}
