/** The invariant of the function translator, on values. */
module TranslatorState {
  import opened Wrappers
  import opened Rudder
  import opened EmittedCode
  import opened Specialisation
  import opened Certificate

  /** The translator's and the emitter's fields at one moment, with the key of every emitted block. */
  datatype View = View(
    blocks: seq<Code>,
    nextTemp: nat,
    nextSlot: nat,
    promoted: map<Name, nat>,
    dynamicBlocks: map<Key, nat>,
    keys: Keys,
    results: seq<Variable>,
    previousWrite: Option<(nat, nat)>)

  predicate Exits(code: Code, exit: nat) {
    code != [] && code[|code| - 1] == JumpTo(exit)
  }

  predicate AllVirtual(results: seq<Variable>) {
    forall v <- results :: v.Virtual?
  }

  predicate AllStack(results: seq<Variable>) {
    forall v <- results :: v.Stack?
  }

  function SlotsOf(results: seq<Variable>): (r: seq<nat>)
    requires AllStack(results)
    ensures |r| == |results|
  {
    seq<nat>(|results|, i requires 0 <= i < |results| => results[i].slot)
  }

  ghost predicate Done(meaning: Meaning, f: Function, v: View, exit: nat, e: nat)
    requires e in v.keys && e < |v.blocks|
  {
    BlockCorrect(meaning, f, v.blocks[e], v.keys[e], v.keys, exit,
                 if Exits(v.blocks[e], exit) then Some(v.results) else None)
  }

  /** No block has returned yet, or exactly one has and its results are still nodes. */
  ghost predicate ReturnsVirtual(f: Function, v: View, exit: nat, cur: nat) {
    && AllVirtual(v.results)
    && match v.previousWrite
       case None =>
         f.arity > 0 ==> forall e :: e in v.keys && e != cur && e < |v.blocks| ==> !Exits(v.blocks[e], exit)
       case Some((p, i)) =>
         && p in v.keys && p != cur && p < |v.blocks|
         && |v.blocks[p]| == i + 1 && Exits(v.blocks[p], exit) && Straight(v.blocks[p][..i])
         && (forall e :: e in v.keys && e != cur && e != p && e < |v.blocks| ==> !Exits(v.blocks[e], exit))
         && forall r <- v.results :: r.node.Some?
  }

  ghost predicate ReturnsStack(v: View) {
    AllStack(v.results) && Distinct(SlotsOf(v.results))
  }

  /** The invariant.  `cur` is the block being filled, or `exit` when there is none. */
  ghost predicate Consistent(meaning: Meaning, f: Function, v: View, exit: nat, cur: nat) {
    && exit < |v.blocks| && v.blocks[exit] == [] && exit !in v.keys
    && (forall e :: e in v.keys ==> e < |v.blocks| && StoreBelow(v.keys[e].store, v.nextTemp, v.promoted))
    && (forall e :: e in v.keys && e != cur && v.blocks[e] != [] ==> Done(meaning, f, v, exit, e))
    && Injective(v.promoted) && (forall x :: x in v.promoted ==> v.promoted[x] < v.nextSlot)
    && (forall k :: k in v.dynamicBlocks ==> v.dynamicBlocks[k] in v.keys && v.keys[v.dynamicBlocks[k]] == k)
    && |v.results| == f.arity
    && (ReturnsVirtual(f, v, exit, cur) || ReturnsStack(v))
  }

  lemma {:induction false} StoreBelowMono(store: VariableStore, t: nat, promoted: map<Name, nat>, t': nat,
      promoted': map<Name, nat>)
    requires StoreBelow(store, t, promoted) && t <= t'
    requires forall x :: x in promoted ==> x in promoted' && promoted'[x] == promoted[x]
    ensures StoreBelow(store, t', promoted')
  {
    forall x | x in store
      ensures match store[x]
              case Virtual(None) => true
              case Virtual(Some(n)) => NodeBelow(n, t')
              case Stack(s) => x in promoted' && promoted'[x] == s
    {}
  }

  /** Appending to the block being filled, and taking fresh temporaries and slots, keeps the invariant. */
  lemma {:induction false} ConsistentGrow(meaning: Meaning, f: Function, v: View, v': View, exit: nat, cur: nat)
    requires Consistent(meaning, f, v, exit, cur)
    requires cur in v.keys && |v'.blocks| == |v.blocks|
    requires forall i :: 0 <= i < |v.blocks| && i != cur ==> v'.blocks[i] == v.blocks[i]
    requires v' == v.(blocks := v'.blocks, nextTemp := v'.nextTemp, nextSlot := v'.nextSlot, promoted := v'.promoted)
    requires v.nextTemp <= v'.nextTemp && v.nextSlot <= v'.nextSlot
    requires v'.promoted == v.promoted ||
             (exists x :: x !in v.promoted && v.nextSlot < v'.nextSlot && v'.promoted == v.promoted[x := v.nextSlot])
    ensures Consistent(meaning, f, v', exit, cur)
  {
    forall e | e in v'.keys ensures StoreBelow(v'.keys[e].store, v'.nextTemp, v'.promoted) {
      StoreBelowMono(v.keys[e].store, v.nextTemp, v.promoted, v'.nextTemp, v'.promoted);
    }
    forall e | e in v'.keys && e != cur && v'.blocks[e] != [] ensures Done(meaning, f, v', exit, e) {
      assert Done(meaning, f, v, exit, e);
    }
    assert ReturnsVirtual(f, v, exit, cur) ==> ReturnsVirtual(f, v', exit, cur);
  }

  lemma {:induction false} EmptyStays(exit: nat)
    ensures !Exits([], exit)
  {}

  lemma {:induction false} DoneMoreKeys(meaning: Meaning, f: Function, v: View, v': View, exit: nat, e: nat)
    requires e in v.keys && e < |v.blocks| && e < |v'.blocks| && Done(meaning, f, v, exit, e)
    requires v'.blocks[e] == v.blocks[e] && v'.results == v.results
    requires forall i :: i in v.keys ==> i in v'.keys && v'.keys[i] == v.keys[i]
    ensures Done(meaning, f, v', exit, e)
  {
    hide BlockCorrect, Exits;
    MoreKeys(meaning, f, v.blocks[e], v.keys[e], v.keys, v'.keys, exit,
             if Exits(v.blocks[e], exit) then Some(v.results) else None);
  }

  /** Creating an empty block for a key keeps the invariant. */
  lemma {:induction false} ConsistentNewBlock(meaning: Meaning, f: Function, v: View, exit: nat, cur: nat, key: Key,
                           dynamicBlocks': map<Key, nat>)
    requires Consistent(meaning, f, v, exit, cur)
    requires cur in v.keys
    requires StoreBelow(key.store, v.nextTemp, v.promoted)
    requires dynamicBlocks' == v.dynamicBlocks || dynamicBlocks' == v.dynamicBlocks[key := |v.blocks|]
    ensures Consistent(meaning, f, v.(blocks := v.blocks + [[]], keys := v.keys[|v.blocks| := key],
                                      dynamicBlocks := dynamicBlocks'), exit, cur)
  {
    hide Done, Exits;
    var v' := v.(blocks := v.blocks + [[]], keys := v.keys[|v.blocks| := key], dynamicBlocks := dynamicBlocks');
    forall e | e in v'.keys && e != cur && v'.blocks[e] != [] ensures Done(meaning, f, v', exit, e) {
      assert e in v.keys && v'.blocks[e] == v.blocks[e];
      DoneMoreKeys(meaning, f, v, v', exit, e);
    }
    assert !Exits([], exit) by { EmptyStays(exit); }
    assert ReturnsVirtual(f, v, exit, cur) ==> ReturnsVirtual(f, v', exit, cur);
    assert ReturnsStack(v) ==> ReturnsStack(v');
  }

  /** Ending the block being filled with a jump that is not a return. */
  lemma {:induction false} ConsistentFinish(meaning: Meaning, f: Function, v: View, exit: nat, cur: nat)
    requires Consistent(meaning, f, v, exit, cur)
    requires cur in v.keys && !Exits(v.blocks[cur], exit) && Done(meaning, f, v, exit, cur)
    ensures Consistent(meaning, f, v, exit, exit)
  {
    assert ReturnsVirtual(f, v, exit, cur) ==> ReturnsVirtual(f, v, exit, exit);
  }

  function Nodes(values: seq<Node>): (r: seq<Variable>)
    ensures |r| == |values|
  {
    seq(|values|, i requires 0 <= i < |values| => Virtual(Some(values[i])))
  }

  function Slots(slots: seq<nat>): (r: seq<Variable>)
    ensures |r| == |slots| && AllStack(r)
  {
    seq(|slots|, i requires 0 <= i < |slots| => Stack(slots[i]))
  }

  lemma {:induction false} SlotsRoundTrip(slots: seq<nat>, results: seq<Variable>)
    ensures SlotsOf(Slots(slots)) == slots
    ensures AllStack(results) ==> Slots(SlotsOf(results)) == results
  {
    if AllStack(results) {
      assert forall i :: 0 <= i < |results| ==> Slots(SlotsOf(results))[i] == results[i];
    }
  }

  lemma {:induction false} LeaveReturns(s: Statement, nodes: map<nat, Node>, values: seq<Node>, m: Machine, fr: Frame)
    requires s.Return? && AllIn(s.values, nodes) && values == Resolve(s.values, nodes)
    requires NodesMatch(nodes, m, fr.values)
    ensures Leave(s, fr) == Returned(NodeValues(values, m))
  {
    assert Resolve(s.values, fr.values) == NodeValues(values, m);
  }

  /** A return that only jumps to the exit block: the first one, or one that returns nothing. */
  lemma {:induction false} ConsistentReturnPlain(
    meaning: Meaning, f: Function, v: View, exit: nat, cur: nat, k: nat, code: Code,
    store: VariableStore, nodes: map<nat, Node>, values: seq<Node>)
    requires Consistent(meaning, f, v, exit, cur) && cur in v.keys
    requires var key := v.keys[cur];
      && key.block < |f.blocks| && k < |f.blocks[key.block]|
      && Tracks(meaning, f.blocks[key.block], k, key.store, code, store, nodes)
      && (forall i :: 0 <= i < k ==> !IsControlFlow(f.blocks[key.block][i]))
      && f.blocks[key.block][k].Return?
      && AllIn(f.blocks[key.block][k].values, nodes) && values == Resolve(f.blocks[key.block][k].values, nodes)
    requires |values| == f.arity
    requires f.arity > 0 ==> ReturnsVirtual(f, v, exit, cur) && v.previousWrite.None?
    requires v.blocks[cur] == code + [JumpTo(exit)]
    ensures f.arity == 0 ==> Consistent(meaning, f, v, exit, exit)
    ensures f.arity > 0 ==>
      Consistent(meaning, f, v.(results := Nodes(values), previousWrite := Some((cur, |code|))), exit, exit)
  {
    var key := v.keys[cur];
    var s := f.blocks[key.block][k];
    var v' := if f.arity == 0 then v else v.(results := Nodes(values), previousWrite := Some((cur, |code|)));
    forall m, fr | InStep(m, fr, store, nodes)
      ensures Agrees(RunBlock(meaning, [JumpTo(exit)], m), Leave(s, fr), v.keys, exit, Some(v'.results))
    {
      LeaveReturns(s, nodes, values, m, fr);
    }
    Finish(meaning, f, key.block, k, key.store, code, [JumpTo(exit)], store, nodes, v.keys, exit, Some(v'.results));
    assert Done(meaning, f, v', exit, cur);
    forall e | e in v'.keys && e != exit && v'.blocks[e] != [] ensures Done(meaning, f, v', exit, e) {
      if e != cur {
        assert Done(meaning, f, v, exit, e);
      }
    }
    if f.arity > 0 {
      assert v'.blocks[cur][..|code|] == code;
      assert ReturnsVirtual(f, v', exit, exit);
    } else {
      assert ReturnsStack(v');
    }
  }

  /** A return that stores its results in the slots every other return uses. */
  lemma {:induction false} ConsistentReturnStack(
    meaning: Meaning, f: Function, v: View, exit: nat, cur: nat, k: nat, code: Code,
    store: VariableStore, nodes: map<nat, Node>, values: seq<Node>)
    requires Consistent(meaning, f, v, exit, cur) && cur in v.keys
    requires var key := v.keys[cur];
      && key.block < |f.blocks| && k < |f.blocks[key.block]|
      && Tracks(meaning, f.blocks[key.block], k, key.store, code, store, nodes)
      && (forall i :: 0 <= i < k ==> !IsControlFlow(f.blocks[key.block][i]))
      && f.blocks[key.block][k].Return?
      && AllIn(f.blocks[key.block][k].values, nodes) && values == Resolve(f.blocks[key.block][k].values, nodes)
    requires |values| == f.arity && ReturnsStack(v)
    requires v.blocks[cur] == code + StoreAll(SlotsOf(v.results), values) + [JumpTo(exit)]
    ensures Consistent(meaning, f, v, exit, exit)
  {
    var key := v.keys[cur];
    var s := f.blocks[key.block][k];
    var slots := SlotsOf(v.results);
    var last := StoreAll(slots, values) + [JumpTo(exit)];
    SlotsRoundTrip(slots, v.results);
    forall m, fr | InStep(m, fr, store, nodes)
      ensures Agrees(RunBlock(meaning, last, m), Leave(s, fr), v.keys, exit, Some(v.results))
    {
      LeaveReturns(s, nodes, values, m, fr);
      RunStoresThenExit(meaning, slots, values, exit, m);
      assert Slots(slots) == seq(|slots|, i requires 0 <= i < |slots| => Stack(slots[i]));
    }
    Finish(meaning, f, key.block, k, key.store, code, last, store, nodes, v.keys, exit, Some(v.results));
    assert code + last == v.blocks[cur];
    assert Done(meaning, f, v, exit, cur);
  }

  /** The second return moves the results of the first one to fresh slots. */
  lemma {:induction false} ConsistentPromoteReturn(
    meaning: Meaning, f: Function, v: View, exit: nat, cur: nat, p: nat, i: nat, slots: seq<nat>, values: seq<Node>)
    requires Consistent(meaning, f, v, exit, cur)
    requires ReturnsVirtual(f, v, exit, cur) && v.previousWrite == Some((p, i))
    requires |slots| == |values| == f.arity && Distinct(slots) && v.results == Nodes(values)
    ensures Consistent(meaning, f,
      v.(blocks := v.blocks[p := v.blocks[p][..i] + StoreAll(slots, values) + v.blocks[p][i..]],
         results := Slots(slots)), exit, cur)
  {
    var pre := v.blocks[p][..i];
    assert v.blocks[p] == pre + [JumpTo(exit)];
    assert v.blocks[p][i..] == [JumpTo(exit)];
    assert Done(meaning, f, v, exit, p);
    assert v.results == seq(|values|, j requires 0 <= j < |values| => Virtual(Some(values[j])));
    SpliceStores(meaning, f, pre, v.keys[p], v.keys, exit, slots, values);
    assert Slots(slots) == seq(|slots|, j requires 0 <= j < |slots| => Stack(slots[j]));
    SlotsRoundTrip(slots, v.results);
    var v' := v.(blocks := v.blocks[p := pre + StoreAll(slots, values) + v.blocks[p][i..]], results := Slots(slots));
    forall e | e in v'.keys && e != cur && v'.blocks[e] != [] ensures Done(meaning, f, v', exit, e) {
      if e != p {
        assert Done(meaning, f, v, exit, e);
      }
    }
    assert ReturnsStack(v');
  }

  lemma {:induction false} ConsistentLarger(meaning: Meaning, f: Function, v: View, exit: nat, cur: nat, nextSlot': nat)
    requires Consistent(meaning, f, v, exit, cur) && v.nextSlot <= nextSlot'
    ensures Consistent(meaning, f, v.(nextSlot := nextSlot'), exit, cur)
  {
    var v' := v.(nextSlot := nextSlot');
    forall e | e in v'.keys && e != cur && v'.blocks[e] != [] ensures Done(meaning, f, v', exit, e) {
      assert Done(meaning, f, v, exit, e);
    }
    assert ReturnsVirtual(f, v, exit, cur) ==> ReturnsVirtual(f, v', exit, cur);
    assert ReturnsStack(v) ==> ReturnsStack(v');
  }

  /** What is true of the first `k` statements, translated into block `e`. */
  ghost predicate Midway(meaning: Meaning, f: Function, v: View, exit: nat, e: nat, k: nat,
                         variables: VariableStore, nodes: map<nat, Node>)
  {
    && Consistent(meaning, f, v, exit, e) && e in v.keys
    && v.keys[e].block < |f.blocks| && k <= |f.blocks[v.keys[e].block]|
    && (forall i :: 0 <= i < k ==> !IsControlFlow(f.blocks[v.keys[e].block][i]))
    && Tracks(meaning, f.blocks[v.keys[e].block], k, v.keys[e].store, v.blocks[e], variables, nodes)
    && StoreBelow(variables, v.nextTemp, v.promoted)
    && NodesBelow(nodes, v.nextTemp)
  }

  /** From `v` to `v'` only block `e` got longer, by `more`, and fresh names were taken. */
  ghost predicate Grows(v: View, v': View, e: nat, more: Code) {
    && e < |v.blocks| && v'.blocks == v.blocks[e := v.blocks[e] + more]
    && v' == v.(blocks := v'.blocks, nextTemp := v'.nextTemp, nextSlot := v'.nextSlot, promoted := v'.promoted)
    && v.nextTemp <= v'.nextTemp && v.nextSlot <= v'.nextSlot
    && (v'.promoted == v.promoted ||
        exists x :: x !in v.promoted && v.nextSlot < v'.nextSlot && v'.promoted == v.promoted[x := v.nextSlot])
  }

  lemma {:induction false} Advance(meaning: Meaning, f: Function, v: View, v': View, exit: nat, e: nat, k: nat,
      more: Code,
                variables: VariableStore, nodes: map<nat, Node>, variables': VariableStore, nodes': map<nat, Node>)
    requires Midway(meaning, f, v, exit, e, k, variables, nodes)
    requires Grows(v, v', e, more)
    requires k < |f.blocks[v.keys[e].block]| && !IsControlFlow(f.blocks[v.keys[e].block][k])
    requires Implements(meaning, f.blocks[v.keys[e].block][k], k, more, variables, nodes, variables', nodes')
    requires StoreBelow(variables', v'.nextTemp, v'.promoted) && NodesBelow(nodes', v'.nextTemp)
    ensures Midway(meaning, f, v', exit, e, k + 1, variables', nodes')
  {
    TracksExtend(meaning, f.blocks[v.keys[e].block], k, v.keys[e].store, v.blocks[e], more,
                 variables, nodes, variables', nodes');
    ConsistentGrow(meaning, f, v, v', exit, e);
  }

  lemma {:induction false} MidwayNewBlock(meaning: Meaning, f: Function, v: View, exit: nat, e: nat, k: nat,
                       variables: VariableStore, nodes: map<nat, Node>, key: Key, dynamicBlocks': map<Key, nat>)
    requires Midway(meaning, f, v, exit, e, k, variables, nodes)
    requires StoreBelow(key.store, v.nextTemp, v.promoted)
    requires dynamicBlocks' == v.dynamicBlocks || dynamicBlocks' == v.dynamicBlocks[key := |v.blocks|]
    ensures Midway(meaning, f, v.(blocks := v.blocks + [[]], keys := v.keys[|v.blocks| := key],
                                  dynamicBlocks := dynamicBlocks'), exit, e, k, variables, nodes)
  {
    ConsistentNewBlock(meaning, f, v, exit, e, key, dynamicBlocks');
  }

  /** Ends block `e` with code that leaves the way its control-flow statement does. */
  lemma {:induction false} Close(meaning: Meaning, f: Function, v: View, exit: nat, e: nat, k: nat, last: Code,
              variables: VariableStore, nodes: map<nat, Node>)
    requires Midway(meaning, f, v, exit, e, k, variables, nodes)
    requires k < |f.blocks[v.keys[e].block]| && IsControlFlow(f.blocks[v.keys[e].block][k])
    requires last != [] && last[|last| - 1] != JumpTo(exit)
    requires forall m, fr {:trigger InStep(m, fr, variables, nodes)} :: InStep(m, fr, variables, nodes) ==>
               Agrees(RunBlock(meaning, last, m), Leave(f.blocks[v.keys[e].block][k], fr), v.keys, exit, None)
    ensures Consistent(meaning, f, v.(blocks := v.blocks[e := v.blocks[e] + last]), exit, exit)
  {
    var v' := v.(blocks := v.blocks[e := v.blocks[e] + last]);
    Finish(meaning, f, v.keys[e].block, k, v.keys[e].store, v.blocks[e], last, variables, nodes, v.keys, exit, None);
    ConsistentGrow(meaning, f, v, v', exit, e);
    assert Done(meaning, f, v', exit, e);
    ConsistentFinish(meaning, f, v', exit, e);
  }

  /** How a translated block ended. */
  datatype Flow =
    | Static(block: nat, x86: nat, store: VariableStore)
    | Dynamic(trueBlock: nat, falseBlock: nat, store: VariableStore)
    | Finished
    | Failed

  /** What finishing block `e` leaves behind: only the blocks named by `flow` are new and waiting. */
  ghost predicate Leaves(v: View, v': View, e: nat, flow: Flow) {
    && |v.blocks| <= |v'.blocks| && e < |v'.blocks| && v'.blocks[e] != []
    && (forall i :: i in v.keys ==> i in v'.keys && v'.keys[i] == v.keys[i] && i < |v.blocks|)
    && (forall i :: i in v.keys && i != e ==> (v'.blocks[i] == [] <==> v.blocks[i] == []))
    && (forall i :: i in v'.keys && i !in v.keys ==> |v.blocks| <= i)
    && (forall key :: key in v'.dynamicBlocks ==>
          (key in v.dynamicBlocks && v.dynamicBlocks[key] == v'.dynamicBlocks[key]) ||
          v'.dynamicBlocks[key] !in v.keys)
    && match flow
       case Static(b, x86, store) =>
         && x86 in v'.keys && v'.keys[x86] == Key(b, store) && x86 !in v.keys && x86 < |v'.blocks|
              && v'.blocks[x86] == []
         && v'.dynamicBlocks == v.dynamicBlocks
         && forall i :: i in v'.keys && i !in v.keys ==> i == x86
       case Dynamic(b0, b1, store) =>
         && Key(b0, store) in v'.dynamicBlocks && Key(b1, store) in v'.dynamicBlocks
         && forall i :: i in v'.keys && i !in v.keys ==>
              i == v'.dynamicBlocks[Key(b0, store)] || i == v'.dynamicBlocks[Key(b1, store)]
       case _ => v'.keys == v.keys
  }

  ghost predicate Emitted(meaning: Meaning, f: Function, v: View, v': View, exit: nat, e: nat, flow: Flow) {
    Consistent(meaning, f, v', exit, exit) && Leaves(v, v', e, flow)
  }

  /** `x86` is the block of `key`, found or made empty. */
  ghost predicate Finds(v: View, v': View, key: Key, x86: nat) {
    && key in v'.dynamicBlocks && v'.dynamicBlocks[key] == x86
    && if key in v.dynamicBlocks then v' == v
       else v' == v.(blocks := v.blocks + [[]], keys := v.keys[|v.blocks| := key],
                     dynamicBlocks := v.dynamicBlocks[key := |v.blocks|])
  }

  lemma {:induction false} FindsMidway(meaning: Meaning, f: Function, v: View, v': View, exit: nat, e: nat, k: nat,
                    variables: VariableStore, nodes: map<nat, Node>, key: Key, x86: nat)
    requires Midway(meaning, f, v, exit, e, k, variables, nodes)
    requires Finds(v, v', key, x86) && key.store == variables
    ensures Midway(meaning, f, v', exit, e, k, variables, nodes)
    ensures x86 in v'.keys && v'.keys[x86] == key
    ensures forall i :: i in v.keys ==> i in v'.keys && v'.keys[i] == v.keys[i]
  {
    if key !in v.dynamicBlocks {
      MidwayNewBlock(meaning, f, v, exit, e, k, variables, nodes, key, v'.dynamicBlocks);
    }
  }

  /** From `v` to `v'` at most the empty block `t` is new, and it is a dynamic one. */
  ghost predicate Gains(v: View, v': View, t: nat) {
    && |v.blocks| <= |v'.blocks| && (forall i :: 0 <= i < |v.blocks| ==> v'.blocks[i] == v.blocks[i])
    && (forall i :: i in v.keys ==> i in v'.keys && v'.keys[i] == v.keys[i])
    && (forall i :: i in v'.keys && i !in v.keys ==> i == t && |v.blocks| <= i < |v'.blocks|)
    && (forall key :: key in v.dynamicBlocks ==>
         key in v'.dynamicBlocks && v'.dynamicBlocks[key] == v.dynamicBlocks[key])
    && forall key :: key in v'.dynamicBlocks && key !in v.dynamicBlocks ==> |v.blocks| <= v'.dynamicBlocks[key]
  }

  lemma {:induction false} FindsGains(v: View, v': View, key: Key, t: nat)
    requires Finds(v, v', key, t) && forall i :: i in v.keys ==> i < |v.blocks|
    ensures Gains(v, v', t) && key in v'.dynamicBlocks && v'.dynamicBlocks[key] == t
  {}

  lemma {:induction false} BranchLeaves(v: View, v1: View, v2: View, e: nat, b0: nat, b1: nat, t: nat, u: nat,
      store: VariableStore, i: Instruction)
    requires forall j :: j in v.keys ==> j < |v.blocks|
    requires e in v.keys
    requires Finds(v, v1, Key(b0, store), t) && Finds(v1, v2, Key(b1, store), u)
    ensures e < |v2.blocks|
    ensures Leaves(v, v2.(blocks := v2.blocks[e := v2.blocks[e] + [i]]), e, Dynamic(b0, b1, store))
  {
    hide Finds;
    FindsGains(v, v1, Key(b0, store), t);
    FindsGains(v1, v2, Key(b1, store), u);
  }

  lemma {:induction false} FindsBothMidway(meaning: Meaning, f: Function, v: View, v1: View, v2: View, exit: nat,
      e: nat, k: nat,
                        variables: VariableStore, nodes: map<nat, Node>, key0: Key, t: nat, key1: Key, u: nat)
    requires Midway(meaning, f, v, exit, e, k, variables, nodes)
    requires Finds(v, v1, key0, t) && key0.store == variables
    requires Finds(v1, v2, key1, u) && key1.store == variables
    ensures Midway(meaning, f, v2, exit, e, k, variables, nodes)
    ensures t in v2.keys && v2.keys[t] == key0 && u in v2.keys && v2.keys[u] == key1
    ensures v2.keys[e] == v.keys[e]
  {
    hide Consistent, Tracks, Finds;
    FindsMidway(meaning, f, v, v1, exit, e, k, variables, nodes, key0, t);
    FindsMidway(meaning, f, v1, v2, exit, e, k, variables, nodes, key1, u);
  }

  lemma {:induction false} CloseBranchAt(meaning: Meaning, f: Function, v: View, exit: nat, e: nat, k: nat,
      s: Statement,
                      t: nat, u: nat, variables: VariableStore, nodes: map<nat, Node>)
    requires Midway(meaning, f, v, exit, e, k, variables, nodes)
    requires k < |f.blocks[v.keys[e].block]| && f.blocks[v.keys[e].block][k] == s && s.Branch?
    requires s.condition in nodes
    requires t in v.keys && v.keys[t] == Key(s.trueTarget, variables)
    requires u in v.keys && v.keys[u] == Key(s.falseTarget, variables)
    ensures Consistent(meaning, f, v.(blocks := v.blocks[e := v.blocks[e] + [BranchTo(nodes[s.condition], t, u)]]),
                       exit, exit)
  {
    Close(meaning, f, v, exit, e, k, [BranchTo(nodes[s.condition], t, u)], variables, nodes);
  }

  lemma {:induction false} CloseBranch(meaning: Meaning, f: Function, v: View, v1: View, v2: View, exit: nat, e: nat,
      k: nat, s: Statement,
                    t: nat, u: nat, variables: VariableStore, nodes: map<nat, Node>)
    requires Midway(meaning, f, v, exit, e, k, variables, nodes)
    requires k < |f.blocks[v.keys[e].block]| && f.blocks[v.keys[e].block][k] == s && s.Branch?
    requires s.condition in nodes
    requires Finds(v, v1, Key(s.trueTarget, variables), t) && Finds(v1, v2, Key(s.falseTarget, variables), u)
    ensures e < |v2.blocks|
    ensures Emitted(meaning, f, v, v2.(blocks := v2.blocks[e := v2.blocks[e] + [BranchTo(nodes[s.condition], t, u)]]),
                    exit, e, Dynamic(s.trueTarget, s.falseTarget, variables))
  {
    BranchLeaves(v, v1, v2, e, s.trueTarget, s.falseTarget, t, u, variables, BranchTo(nodes[s.condition], t, u));
    FindsBothMidway(meaning, f, v, v1, v2, exit, e, k, variables, nodes,
                    Key(s.trueTarget, variables), t, Key(s.falseTarget, variables), u);
    CloseBranchAt(meaning, f, v2, exit, e, k, s, t, u, variables, nodes);
  }

  lemma {:induction false} JumpLeaves(v: View, v': View, e: nat, key: Key)
    requires e in v.keys && forall i :: i in v.keys ==> i < |v.blocks|
    requires v' == v.(blocks := (v.blocks + [[]])[e := v.blocks[e] + [JumpTo(|v.blocks|)]], keys :=
               v.keys[|v.blocks| := key])
    ensures Leaves(v, v', e, Static(key.block, |v.blocks|, key.store))
  {}

  lemma {:induction false} CloseJump(meaning: Meaning, f: Function, v: View, exit: nat, e: nat, k: nat, target: nat,
                  variables: VariableStore, nodes: map<nat, Node>)
    requires Midway(meaning, f, v, exit, e, k, variables, nodes)
    requires k < |f.blocks[v.keys[e].block]| && IsControlFlow(f.blocks[v.keys[e].block][k])
    requires forall m, fr {:trigger InStep(m, fr, variables, nodes)} :: InStep(m, fr, variables, nodes) ==>
               Leave(f.blocks[v.keys[e].block][k], fr) == Next(target, fr.locals)
    ensures Emitted(meaning, f, v,
      v.(blocks := (v.blocks + [[]])[e := v.blocks[e] + [JumpTo(|v.blocks|)]],
         keys := v.keys[|v.blocks| := Key(target, variables)]),
      exit, e, Static(target, |v.blocks|, variables))
  {
    var x86, key := |v.blocks|, Key(target, variables);
    MidwayNewBlock(meaning, f, v, exit, e, k, variables, nodes, key, v.dynamicBlocks);
    var v1 := v.(blocks := v.blocks + [[]], keys := v.keys[x86 := key]);
    var v2 := v1.(blocks := v1.blocks[e := v1.blocks[e] + [JumpTo(x86)]]);
    JumpLeaves(v, v2, e, key);
    hide Leaves, Tracks;
    Close(meaning, f, v1, exit, e, k, [JumpTo(x86)], variables, nodes);
  }

  lemma {:induction false} FilledLeaves(v: View, e: nat, last: Code)
    requires e in v.keys && last != [] && forall i :: i in v.keys ==> i < |v.blocks|
    ensures Leaves(v, v.(blocks := v.blocks[e := v.blocks[e] + last]), e, Finished)
  {}

  lemma {:induction false} ClosePanic(meaning: Meaning, f: Function, v: View, exit: nat, e: nat, k: nat,
      panicBlock: nat,
                   variables: VariableStore, nodes: map<nat, Node>)
    requires Midway(meaning, f, v, exit, e, k, variables, nodes)
    requires k < |f.blocks[v.keys[e].block]| && f.blocks[v.keys[e].block][k].Panic?
    requires panicBlock != exit
    ensures Emitted(meaning, f, v, v.(blocks := v.blocks[e := v.blocks[e] + [Trap, JumpTo(panicBlock)]]), exit, e,
              Finished)
  {
    FilledLeaves(v, e, [Trap, JumpTo(panicBlock)]);
    hide Leaves, Tracks;
    Close(meaning, f, v, exit, e, k, [Trap, JumpTo(panicBlock)], variables, nodes);
  }

  function Fresh(first: nat, n: nat): (r: seq<nat>)
    ensures |r| == n
  {
    seq<nat>(n, i => first + i)
  }

  /** Block `e` returns `values`, the nodes of the values its return statement names. */
  ghost predicate Returning(f: Function, v: View, e: nat, k: nat, nodes: map<nat, Node>, values: seq<Node>) {
    && e in v.keys && v.keys[e].block < |f.blocks| && k < |f.blocks[v.keys[e].block]|
    && f.blocks[v.keys[e].block][k].Return?
    && AllIn(f.blocks[v.keys[e].block][k].values, nodes)
    && values == Resolve(f.blocks[v.keys[e].block][k].values, nodes)
    && |values| == f.arity
  }

  lemma {:induction false} CloseReturnPlain(meaning: Meaning, f: Function, v: View, exit: nat, e: nat, k: nat,
                         variables: VariableStore, nodes: map<nat, Node>, values: seq<Node>)
    requires Midway(meaning, f, v, exit, e, k, variables, nodes) && Returning(f, v, e, k, nodes, values)
    requires f.arity > 0 ==> AllVirtual(v.results) && v.previousWrite.None?
    ensures var v' := v.(blocks := v.blocks[e := v.blocks[e] + [JumpTo(exit)]]);
            Emitted(meaning, f, v,
              if f.arity == 0 then v' else v'.(results := Nodes(values), previousWrite := Some((e, |v.blocks[e]|))),
              exit, e, Finished)
  {
    var v' := v.(blocks := v.blocks[e := v.blocks[e] + [JumpTo(exit)]]);
    if f.arity > 0 {
      assert v.results[0] in v.results;
    }
    ConsistentGrow(meaning, f, v, v', exit, e);
    ConsistentReturnPlain(meaning, f, v', exit, e, k, v.blocks[e], variables, nodes, values);
  }

  lemma {:induction false} CloseReturnStack(meaning: Meaning, f: Function, v: View, exit: nat, e: nat, k: nat,
                         variables: VariableStore, nodes: map<nat, Node>, values: seq<Node>)
    requires Midway(meaning, f, v, exit, e, k, variables, nodes) && Returning(f, v, e, k, nodes, values)
    requires AllStack(v.results) && ReturnsStack(v)
    ensures Emitted(meaning, f, v,
      v.(blocks := v.blocks[e := v.blocks[e] + StoreAll(SlotsOf(v.results), values) + [JumpTo(exit)]]),
      exit, e, Finished)
  {
    var v' := v.(blocks := v.blocks[e := v.blocks[e] + StoreAll(SlotsOf(v.results), values) + [JumpTo(exit)]]);
    ConsistentGrow(meaning, f, v, v', exit, e);
    ConsistentReturnStack(meaning, f, v', exit, e, k, v.blocks[e], variables, nodes, values);
  }

  lemma {:induction false} MidwayPromoteReturn(meaning: Meaning, f: Function, v: View, exit: nat, e: nat, k: nat,
                            variables: VariableStore, nodes: map<nat, Node>, p: nat, i: nat, values: seq<Node>)
    requires Midway(meaning, f, v, exit, e, k, variables, nodes)
    requires ReturnsVirtual(f, v, exit, e) && v.previousWrite == Some((p, i)) && v.results == Nodes(values)
    ensures p < |v.blocks| && i <= |v.blocks[p]| && p != e && v.blocks[p] != [] && |values| == f.arity
    ensures var v' := v.(
      blocks := v.blocks[p := v.blocks[p][..i] + StoreAll(Fresh(v.nextSlot, f.arity), values) + v.blocks[p][i..]],
      results := Slots(Fresh(v.nextSlot, f.arity)), nextSlot := v.nextSlot + f.arity);
      Midway(meaning, f, v', exit, e, k, variables, nodes) && ReturnsStack(v')
  {
    var slots := Fresh(v.nextSlot, f.arity);
    var v1 := v.(blocks := v.blocks[p := v.blocks[p][..i] + StoreAll(slots, values) + v.blocks[p][i..]],
                 results := Slots(slots));
    ConsistentPromoteReturn(meaning, f, v, exit, e, p, i, slots, values);
    ConsistentLarger(meaning, f, v1, exit, e, v.nextSlot + f.arity);
    SlotsRoundTrip(slots, v.results);
  }

  lemma {:induction false} LeavesFrom(v: View, v1: View, v2: View, e: nat, flow: Flow)
    requires Leaves(v1, v2, e, flow)
    requires |v1.blocks| == |v.blocks| && v1.keys == v.keys && v1.dynamicBlocks == v.dynamicBlocks
    requires forall i :: 0 <= i < |v.blocks| ==> (v1.blocks[i] == [] <==> v.blocks[i] == [])
    ensures Leaves(v, v2, e, flow)
  {}

  lemma {:induction false} LeavesFill(v: View, v1: View, v2: View, e: nat, flow: Flow)
    requires Leaves(v1, v2, e, flow)
    requires |v1.blocks| == |v.blocks| && v1.keys == v.keys && v1.dynamicBlocks == v.dynamicBlocks
    requires forall i :: 0 <= i < |v.blocks| && i != e ==> v1.blocks[i] == v.blocks[i]
    ensures Leaves(v, v2, e, flow)
  {}

  lemma {:induction false} MidwayStart(meaning: Meaning, f: Function, v: View, exit: nat, e: nat)
    requires Consistent(meaning, f, v, exit, exit)
    requires e in v.keys && v.keys[e].block < |f.blocks| && v.blocks[e] == []
    ensures Midway(meaning, f, v, exit, e, 0, v.keys[e].store, map[])
  {
    TracksStart(meaning, f.blocks[v.keys[e].block], v.keys[e].store);
    assert ReturnsVirtual(f, v, exit, exit) ==> ReturnsVirtual(f, v, exit, e);
  }

  lemma {:induction false} AdvanceConstant(meaning: Meaning, f: Function, v: View, exit: nat, e: nat, k: nat,
      s: Statement,
                            variables: VariableStore, nodes: map<nat, Node>)
    requires Midway(meaning, f, v, exit, e, k, variables, nodes)
    requires k < |f.blocks[v.keys[e].block]| && f.blocks[v.keys[e].block][k] == s && s.Constant?
    ensures Midway(meaning, f, v, exit, e, k + 1, variables, nodes[k := Const(s.constant)])
  {
    ConstantImplemented(meaning, s, k, variables, nodes);
    assert v.blocks[e] + [] == v.blocks[e];
    Advance(meaning, f, v, v, exit, e, k, [], variables, nodes, variables, nodes[k := Const(s.constant)]);
  }

  lemma {:induction false} AdvanceVirtualWrite(meaning: Meaning, f: Function, v: View, exit: nat, e: nat, k: nat,
      s: Statement,
                            variables: VariableStore, nodes: map<nat, Node>)
    requires Midway(meaning, f, v, exit, e, k, variables, nodes)
    requires k < |f.blocks[v.keys[e].block]| && f.blocks[v.keys[e].block][k] == s
    requires s.WriteVariable? && s.value in nodes
    ensures Midway(meaning, f, v, exit, e, k + 1, variables[s.symbol := Virtual(Some(nodes[s.value]))], nodes)
  {
    VirtualWriteImplemented(meaning, s, k, variables, nodes);
    assert v.blocks[e] + [] == v.blocks[e];
    Advance(meaning, f, v, v, exit, e, k, [], variables, nodes,
            variables[s.symbol := Virtual(Some(nodes[s.value]))], nodes);
  }

  /** The state after `symbol` has been given a slot, if it had none. */
  function WithSlot(v: View, symbol: Name): View {
    if symbol in v.promoted then v
    else v.(promoted := v.promoted[symbol := v.nextSlot], nextSlot := v.nextSlot + 1)
  }

  lemma {:induction false} AdvanceStackWrite(meaning: Meaning, f: Function, v: View, exit: nat, e: nat, k: nat,
      s: Statement,
                          variables: VariableStore, nodes: map<nat, Node>, slot: nat)
    requires Midway(meaning, f, v, exit, e, k, variables, nodes)
    requires k < |f.blocks[v.keys[e].block]| && f.blocks[v.keys[e].block][k] == s
    requires s.WriteVariable? && s.value in nodes
    requires slot == WithSlot(v, s.symbol).promoted[s.symbol]
    ensures Midway(meaning, f,
      WithSlot(v, s.symbol).(blocks := v.blocks[e := v.blocks[e] + [Store(slot, nodes[s.value])]]),
      exit, e, k + 1, variables[s.symbol := Stack(slot)], nodes)
  {
    var v1 := WithSlot(v, s.symbol);
    var i := Store(slot, nodes[s.value]);
    StoreBelowMono(variables, v.nextTemp, v.promoted, v1.nextTemp, v1.promoted);
    StackWriteImplemented(meaning, s, k, variables, nodes, v1.nextTemp, slot, v1.promoted);
    Advance(meaning, f, v, v1.(blocks := v.blocks[e := v.blocks[e] + [i]]), exit, e, k, [i], variables, nodes,
            variables[s.symbol := Stack(slot)], nodes);
  }
}
