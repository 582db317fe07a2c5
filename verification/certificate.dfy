/** When a set of emitted blocks is a correct translation of a function.

    Every emitted block stands for a key: a Rudder block together with the variable
    store it was specialised on.  `Certified` is a per-block condition; the simulation
    theorem lifts it to whole runs, loops and merged paths included. */
module Certificate {
  import opened Wrappers
  import opened Rudder
  import opened EmittedCode
  import opened Specialisation

  datatype Key = Key(block: nat, store: VariableStore)

  type Keys = map<nat, Key>

  ghost predicate ResultsMatch(results: seq<Variable>, m: Machine, words: seq<Word>) {
    && |results| == |words|
    && forall i :: 0 <= i < |words| ==> VariableValue(results[i], m) == Some(words[i])
  }

  /** Leaving an emitted block agrees with leaving the Rudder block it stands for.
      `results` says where return values are left; None is for a block that never returns. */
  ghost predicate Agrees(e: Exit, r: BlockResult, keys: Keys, exit: nat, results: Option<seq<Variable>>) {
    match r
    case Next(b, locals) =>
      e.Goto? && e.block in keys && keys[e.block].block == b && Matches(keys[e.block].store, e.machine, locals)
    case Returned(words) =>
      results.Some? && e.Goto? && e.block == exit && ResultsMatch(results.value, e.machine, words)
    case Panicked => e.Trapped?
  }

  ghost predicate BlockCorrect(
    meaning: Meaning, f: Function, code: Code, key: Key, keys: Keys, exit: nat, results: Option<seq<Variable>>)
  {
    forall m, locals {:trigger Matches(key.store, m, locals)} :: Matches(key.store, m, locals) ==>
      Agrees(RunBlock(meaning, code, m), InterpretBlock(meaning, f, key.block, locals), keys, exit, results)
  }

  ghost predicate Certified(
    meaning: Meaning, f: Function, blocks: seq<Code>, keys: Keys, exit: nat, results: seq<Variable>)
  {
    && exit !in keys
    && forall e :: e in keys ==>
         e < |blocks| && BlockCorrect(meaning, f, blocks[e], keys[e], keys, exit, Some(results))
  }

  lemma {:induction false} CertifiedBlock(
    meaning: Meaning, f: Function, blocks: seq<Code>, keys: Keys, exit: nat, results: seq<Variable>,
    e: nat, m: Machine, locals: Locals)
    requires Certified(meaning, f, blocks, keys, exit, results)
    requires e in keys && Matches(keys[e].store, m, locals)
    ensures exit !in keys && e < |blocks|
    ensures Agrees(RunBlock(meaning, blocks[e], m), InterpretBlock(meaning, f, keys[e].block, locals),
                   keys, exit, Some(results))
  {
    hide Matches, Agrees, RunBlock, InterpretBlock;
    assert BlockCorrect(meaning, f, blocks[e], keys[e], keys, exit, Some(results));
  }

  /** Certified blocks keep step with the interpreter for any number of blocks: they reach the
      exit block exactly when the interpreter returns, with the returned words in place, and
      trap exactly when the interpreter panics. */
  lemma {:induction false} Simulation(
    meaning: Meaning, f: Function, blocks: seq<Code>, keys: Keys, exit: nat, results: seq<Variable>,
    e: nat, m: Machine, locals: Locals, n: nat)
    requires Certified(meaning, f, blocks, keys, exit, results)
    requires e in keys && Matches(keys[e].store, m, locals)
    ensures Agrees(Run(meaning, blocks, exit, e, m, n), Interpret(meaning, f, keys[e].block, locals, n),
                   keys, exit, Some(results))
    decreases n
  {
    hide Matches, ResultsMatch, Certified, RunBlock, InterpretBlock;
    CertifiedBlock(meaning, f, blocks, keys, exit, results, e, m, locals);
    if n != 0 {
      var x := RunBlock(meaning, blocks[e], m);
      var r := InterpretBlock(meaning, f, keys[e].block, locals);
      if r.Next? {
        Simulation(meaning, f, blocks, keys, exit, results, x.block, x.machine, r.locals, n - 1);
      } else if r.Returned? {
        assert Run(meaning, blocks, exit, exit, x.machine, n - 1) == x;
      }
    }
  }

  lemma {:induction false} NeverReturnsAnyResults(
    meaning: Meaning, f: Function, code: Code, key: Key, keys: Keys, exit: nat, results: seq<Variable>)
    requires BlockCorrect(meaning, f, code, key, keys, exit, None)
    ensures BlockCorrect(meaning, f, code, key, keys, exit, Some(results))
  {}

  /** More emitted blocks do not disturb a block already correct. */
  lemma {:induction false} MoreKeys(
    meaning: Meaning, f: Function, code: Code, key: Key, keys: Keys, keys': Keys, exit: nat,
    results: Option<seq<Variable>>)
    requires BlockCorrect(meaning, f, code, key, keys, exit, results)
    requires forall e :: e in keys ==> e in keys' && keys'[e] == keys[e]
    ensures BlockCorrect(meaning, f, code, key, keys', exit, results)
  {
    forall m, locals | Matches(key.store, m, locals)
      ensures Agrees(RunBlock(meaning, code, m), InterpretBlock(meaning, f, key.block, locals), keys', exit, results)
    {
      assert Agrees(RunBlock(meaning, code, m), InterpretBlock(meaning, f, key.block, locals), keys, exit, results);
    }
  }

  /** Code that tracks the statements before a control-flow statement, ended by code that
      leaves the way the statement does, is a correct block. */
  lemma {:induction false} Finish(
    meaning: Meaning, f: Function, b: nat, k: nat, entry: VariableStore, code: Code, last: Code,
    store: VariableStore, nodes: map<nat, Node>, keys: Keys, exit: nat, results: Option<seq<Variable>>)
    requires b < |f.blocks| && k < |f.blocks[b]|
    requires Tracks(meaning, f.blocks[b], k, entry, code, store, nodes)
    requires forall i :: 0 <= i < k ==> !IsControlFlow(f.blocks[b][i])
    requires IsControlFlow(f.blocks[b][k])
    requires forall m, fr {:trigger InStep(m, fr, store, nodes)} :: InStep(m, fr, store, nodes) ==>
               Agrees(RunBlock(meaning, last, m), Leave(f.blocks[b][k], fr), keys, exit, results)
    ensures BlockCorrect(meaning, f, code + last, Key(b, entry), keys, exit, results)
  {
    forall m, locals | Matches(entry, m, locals)
      ensures Agrees(RunBlock(meaning, code + last, m), InterpretBlock(meaning, f, b, locals), keys, exit, results)
    {
      RunBlockSplit(meaning, code, last, m);
      PrefixThenRest(meaning, f.blocks[b], k, locals);
      assert BothInStep(RunStraight(meaning, code, m), Prefix(meaning, f.blocks[b], k, locals), store, nodes);
    }
  }

  function StoreAll(slots: seq<nat>, values: seq<Node>): (c: Code)
    requires |slots| == |values|
    ensures |c| == |slots| && Straight(c)
  {
    seq(|slots|, i requires 0 <= i < |slots| => Store(slots[i], values[i]))
  }

  ghost predicate Distinct(s: seq<nat>) {
    forall i, j :: 0 <= i < j < |s| ==> s[i] != s[j]
  }

  lemma {:induction false} RunStores(meaning: Meaning, slots: seq<nat>, values: seq<Node>, m: Machine)
      returns (m': Machine)
    requires |slots| == |values| && Distinct(slots)
    ensures RunStraight(meaning, StoreAll(slots, values), m) == Some(m')
    ensures m'.temps == m.temps
    ensures forall i :: 0 <= i < |slots| ==> SlotValue(slots[i], m') == NodeValue(values[i], m)
    ensures forall s :: s !in slots ==> SlotValue(s, m') == SlotValue(s, m)
  {
    if slots == [] {
      m' := m;
    } else {
      var n := |slots| - 1;
      var m1 := RunStores(meaning, slots[..n], values[..n], m);
      assert StoreAll(slots, values)[..n] == StoreAll(slots[..n], values[..n]);
      m' := m1.(stack := m1.stack[slots[n] := NodeValue(values[n], m1)]);
      assert NodeValue(values[n], m1) == NodeValue(values[n], m);
    }
  }

  lemma {:induction false} RunStoresThenExit(meaning: Meaning, slots: seq<nat>, values: seq<Node>, exit: nat,
      m: Machine)
    requires |slots| == |values| && Distinct(slots)
    ensures var x := RunBlock(meaning, StoreAll(slots, values) + [JumpTo(exit)], m);
            x.Goto? && x.block == exit &&
            ResultsMatch(seq(|slots|, i requires 0 <= i < |slots| => Stack(slots[i])), x.machine, NodeValues(values, m))
  {
    RunBlockSplit(meaning, StoreAll(slots, values), [JumpTo(exit)], m);
    var m' := RunStores(meaning, slots, values, m);
  }

  /** The repair of an earlier return: its results move from nodes to slots when the stores
      are spliced in front of its jump to the exit block. */
  lemma {:induction false} SpliceStores(
    meaning: Meaning, f: Function, code: Code, key: Key, keys: Keys, exit: nat, slots: seq<nat>, values: seq<Node>)
    requires Straight(code) && exit !in keys
    requires |slots| == |values| && Distinct(slots)
    requires BlockCorrect(meaning, f, code + [JumpTo(exit)], key, keys, exit,
                          Some(seq(|values|, i requires 0 <= i < |values| => Virtual(Some(values[i])))))
    ensures BlockCorrect(meaning, f, code + StoreAll(slots, values) + [JumpTo(exit)], key, keys, exit,
                         Some(seq(|slots|, i requires 0 <= i < |slots| => Stack(slots[i]))))
  {
    var before := seq(|values|, i requires 0 <= i < |values| => Virtual(Some(values[i])));
    var last := StoreAll(slots, values) + [JumpTo(exit)];
    assert code + StoreAll(slots, values) + [JumpTo(exit)] == code + last;
    forall m, locals | Matches(key.store, m, locals)
      ensures Agrees(RunBlock(meaning, code + last, m), InterpretBlock(meaning, f, key.block, locals), keys, exit,
                     Some(seq(|slots|, i requires 0 <= i < |slots| => Stack(slots[i]))))
    {
      var r := InterpretBlock(meaning, f, key.block, locals);
      assert Agrees(RunBlock(meaning, code + [JumpTo(exit)], m), r, keys, exit, Some(before));
      RunBlockSplit(meaning, code, [JumpTo(exit)], m);
      RunBlockSplit(meaning, code, last, m);
      match RunStraight(meaning, code, m)
      case None =>
      case Some(m') =>
        RunStoresThenExit(meaning, slots, values, exit, m');
        assert ResultsMatch(before, m', r.results);
        assert forall i :: 0 <= i < |values| ==> VariableValue(before[i], m') == Some(NodeValue(values[i], m'));
        assert NodeValues(values, m') == r.results;
    }
  }
}
