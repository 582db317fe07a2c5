/** The function translator: a worklist that specialises Rudder blocks on variable stores. */
module Translator {
  import opened Wrappers
  import opened Rudder
  import opened EmittedCode
  import opened Specialisation
  import opened Certificate
  import opened TranslatorState
  import opened Worklist
  import opened WellFormedness
  import opened QueueProgress

  const BLOCK_QUEUE_LIMIT := 1000

  /** The code builder.  An operation on constants may be folded, as `folds` says; otherwise
      it is emitted into the current block and named by a fresh temporary. */
  class Emitter {
    const meaning: Meaning
    const folds: Operation -> bool
    const panicBlock: nat
    var blocks: seq<Code>
    var current: nat
    var nextTemp: nat
    var nextSlot: nat

    /** A context with an empty initial block and the panic block; the caller has already
        assigned the temporaries below `temps` and taken the slots below `slots`. */
    constructor (meaning: Meaning, folds: Operation -> bool, temps: nat, slots: nat)
      ensures this.meaning == meaning && this.folds == folds
      ensures blocks == [[], [Trap]] && current == 0 && panicBlock == 1
      ensures nextTemp == temps && nextSlot == slots
    {
      this.meaning, this.folds := meaning, folds;
      this.blocks, this.current, this.panicBlock := [[], [Trap]], 0, 1;
      this.nextTemp, this.nextSlot := temps, slots;
    }

    method CreateBlock() returns (b: nat)
      modifies this`blocks
      ensures b == |old(blocks)| && blocks == old(blocks) + [[]]
    {
      b := |blocks|;
      blocks := blocks + [[]];
    }

    method Push(i: Instruction)
      requires current < |blocks|
      modifies this`blocks
      ensures blocks == old(blocks)[current := old(blocks)[current] + [i]]
    {
      blocks := blocks[current := blocks[current] + [i]];
    }

    method Operate(op: Operation, args: seq<Node>) returns (n: Node)
      requires current < |blocks|
      modifies this`blocks, this`nextTemp
      ensures n.Const? <==> folds(op) && forall a <- args :: a.Const?
      ensures n.Const? ==>
        && blocks == old(blocks) && nextTemp == old(nextTemp)
        && n.word == meaning(op, seq(|args|, i requires 0 <= i < |args| => if args[i].Const? then args[i].word else 0))
      ensures n.Temp? ==>
        && n.id == old(nextTemp) && nextTemp == old(nextTemp) + 1
        && blocks == old(blocks)[current := old(blocks)[current] + [Instruction.Operate(n.id, op, args)]]
    {
      if folds(op) && forall a <- args :: a.Const? {
        n := Const(meaning(op, seq(|args|, i requires 0 <= i < |args| => if args[i].Const? then args[i].word else 0)));
      } else {
        n := Temp(nextTemp);
        nextTemp := nextTemp + 1;
        Push(Instruction.Operate(n.id, op, args));
      }
    }

    method ReadStackVariable(slot: nat) returns (n: Node)
      requires current < |blocks|
      modifies this`blocks, this`nextTemp
      ensures n == Temp(old(nextTemp)) && nextTemp == old(nextTemp) + 1
      ensures blocks == old(blocks)[current := old(blocks)[current] + [Load(old(nextTemp), slot)]]
    {
      n := Temp(nextTemp);
      nextTemp := nextTemp + 1;
      Push(Load(n.id, slot));
    }

    method Check(condition: Node)
      requires current < |blocks|
      modifies this`blocks
      ensures blocks == old(blocks)[current := old(blocks)[current] + AssertCode(condition)]
    {
      assert blocks[current] + [] == blocks[current];
      match condition
      case Const(w) =>
        if w == 0 {
          Push(Trap);
        }
      case Temp(_) =>
        Push(Instruction.Check(condition));
    }

    method Panic()
      requires current < |blocks|
      modifies this`blocks
      ensures blocks == old(blocks)[current := old(blocks)[current] + [Trap, JumpTo(panicBlock)]]
    {
      ghost var code := blocks[current];
      Push(Trap);
      Push(JumpTo(panicBlock));
      assert code + [Trap] + [JumpTo(panicBlock)] == code + [Trap, JumpTo(panicBlock)];
    }

    method AllocateSlot() returns (slot: nat)
      modifies this`nextSlot
      ensures slot == old(nextSlot) && nextSlot == old(nextSlot) + 1
    {
      slot := nextSlot;
      nextSlot := nextSlot + 1;
    }
  }

  /** The translation, or why there is none: the code panics on a malformed function, on a full queue and
      when no return was translated, and it may go on for ever. */
  datatype Result = Translated(results: seq<Node>) | Malformed | QueueFull | NoReturn | OutOfSteps

  /** A flow goes where its statement says, with the variables as they are. */
  ghost predicate FlowFollows(s: Statement, flow: Flow, variables: VariableStore) {
    match flow
    case Static(b, _, store) => GoesTo(s, b) && store == variables
    case Dynamic(b0, b1, store) => GoesTo(s, b0) && GoesTo(s, b1) && store == variables
    case _ => true
  }

  /** What a block's flow hands on. */
  ghost predicate FlowHandsOn(f: Function, b: nat, store: VariableStore, flow: Flow)
    requires b < |f.blocks|
  {
    var vars := VarsAtEnd(f.blocks[b], 0, store.Keys);
    match flow
    case Static(c, _, store') => Successor(f, b, c) && store'.Keys == vars && (Definite(store) ==> Definite(store'))
    case Dynamic(c, d, store') =>
      Successor(f, b, c) && Successor(f, b, d) && store'.Keys == vars && (Definite(store) ==> Definite(store'))
    case _ => true
  }

  /** Every parameter is bound to its own argument. */
  lemma {:induction false} EntryStore(names: seq<Name>, arguments: seq<Node>)
    requires |names| == |arguments| && DistinctNames(names)
    ensures var store := Bind(names, Nodes(arguments));
            && (forall x :: x in store <==> x in names)
            && forall i :: 0 <= i < |names| ==> store[names[i]] == Virtual(Some(arguments[i]))
  {
    BindLookup(names, Nodes(arguments));
    forall i | 0 <= i < |names|
      ensures Bind(names, Nodes(arguments))[names[i]] == Virtual(Some(arguments[i]))
    {
      BindAt(names, Nodes(arguments), i);
    }
  }

  /** An exit and an entry block, both empty, are a consistent start. */
  lemma {:induction false} StartConsistent(meaning: Meaning, f: Function, v: View, exit: nat, entry: nat,
      arguments: seq<Node>)
    requires |arguments| == |f.parameters| && forall n <- arguments :: NodeBelow(n, v.nextTemp)
    requires exit != entry && exit < |v.blocks| && entry < |v.blocks| && v.blocks[exit] == v.blocks[entry] == []
    requires v.keys == map[entry := Key(f.entry, Bind(f.parameters, Nodes(arguments)))]
    requires v.promoted == map[] && v.dynamicBlocks == map[] && v.previousWrite == None
    requires |v.results| == f.arity && forall r <- v.results :: r == Virtual(None)
    ensures Consistent(meaning, f, v, exit, exit)
  {
    BindLookup(f.parameters, Nodes(arguments));
  }

  /** A block with one successor made for it alone puts that at the front of the queue; the two successors of
      an unknown branch go to the back, first the one for true. */
  ghost predicate Requeued(queue: seq<Job>, next: seq<Job>)
    requires queue != []
  {
    || next == queue[1..]
    || (|next| == |queue| && !next[0].isDynamic && next[1..] == queue[1..])
    || (|next| == |queue| + 1 && next[|queue| - 1].isDynamic && next[|queue|].isDynamic
        && next[..|queue| - 1] == queue[1..])
  }

  lemma {:induction false} RequeuedAll(queue: seq<Job>, j0: Job, j1: Job)
    requires queue != []
    ensures Requeued(queue, queue[1..]) && (!j0.isDynamic ==> Requeued(queue, [j0] + queue[1..]))
    ensures j0.isDynamic && j1.isDynamic ==> Requeued(queue, queue[1..] + [j0, j1])
  {}

  class FunctionTranslator {
    const f: Function
    const emitter: Emitter
    const exit: nat
    const entry: nat
    const arguments: seq<Node>
    var dynamicBlocks: map<Key, nat>
    var promoted: map<Name, nat>
    var results: seq<Variable>
    var previousWrite: Option<(nat, nat)>
    ghost var keys: Keys

    ghost function View(): View
      reads this, emitter
    {
      TranslatorState.View(emitter.blocks, emitter.nextTemp, emitter.nextSlot, promoted, dynamicBlocks, keys,
                           results, previousWrite)
    }

    ghost predicate Valid(cur: nat)
      reads this, emitter
    {
      Consistent(emitter.meaning, f, View(), exit, cur)
    }

    /** Parameters are virtual variables holding the argument nodes; an exit block and the
        function's entry block are created empty. */
    constructor (f: Function, arguments: seq<Node>, emitter: Emitter)
      requires |arguments| == |f.parameters| && DistinctNames(f.parameters)
      requires emitter.panicBlock < |emitter.blocks|
      requires forall n <- arguments :: NodeBelow(n, emitter.nextTemp)
      modifies emitter`blocks
      ensures emitter.panicBlock < exit && dynamicBlocks == map[]
      ensures this.f == f && this.arguments == arguments && this.emitter == emitter
      ensures exit == |old(emitter.blocks)| && entry == exit + 1
      ensures emitter.blocks == old(emitter.blocks) + [[], []]
      ensures keys == map[entry := Key(f.entry, Bind(f.parameters, Nodes(arguments)))]
      ensures forall x :: x in keys[entry].store <==> x in f.parameters
      ensures forall i :: 0 <= i < |arguments| ==> keys[entry].store[f.parameters[i]] == Virtual(Some(arguments[i]))
      ensures Valid(exit)
    {
      this.f, this.arguments, this.emitter := f, arguments, emitter;
      this.dynamicBlocks, this.promoted := map[], map[];
      this.results := seq(f.arity, _ => Virtual(None));
      this.previousWrite := None;
      var exit := emitter.CreateBlock();
      var entry := emitter.CreateBlock();
      this.exit, this.entry := exit, entry;
      this.keys := map[entry := Key(f.entry, Bind(f.parameters, Nodes(arguments)))];
      new;
      EntryStore(f.parameters, arguments);
      StartConsistent(emitter.meaning, f, View(), exit, entry, arguments);
      hide Consistent, Bind, Nodes;
    }

    /** The first `k` statements of the block that `e` stands for have been translated. */
    ghost predicate Midway(e: nat, k: nat, variables: VariableStore, nodes: map<nat, Node>)
      reads this, emitter
    {
      emitter.current == e && TranslatorState.Midway(emitter.meaning, f, View(), exit, e, k, variables, nodes)
    }

    ghost function StatementAt(e: nat, k: nat): Statement
      reads this
      requires e in keys && keys[e].block < |f.blocks| && k < |f.blocks[keys[e].block]|
    {
      f.blocks[keys[e].block][k]
    }

    method ReadVariable(e: nat, k: nat, variables: VariableStore, nodes: map<nat, Node>, symbol: Name)
      returns (n: Option<Node>)
      requires Midway(e, k, variables, nodes)
      requires k < |f.blocks[keys[e].block]| && StatementAt(e, k) == Statement.ReadVariable(symbol)
      requires symbol in variables
      modifies emitter`blocks, emitter`nextTemp
      ensures n.Some? ==> Midway(e, k + 1, variables, nodes[k := n.value])
      ensures n.None? <==> variables[symbol] == Virtual(None)
      ensures match variables[symbol]
              case Virtual(node) => n == node && emitter.blocks == old(emitter.blocks)
              case Stack(slot) => emitter.blocks[e] == old(emitter.blocks[e]) + [Load(old(emitter.nextTemp), slot)]
      ensures |emitter.blocks| == |old(emitter.blocks)|
      ensures forall i :: 0 <= i < |emitter.blocks| && i != e ==> emitter.blocks[i] == old(emitter.blocks[i])
    {
      ghost var v0 := View();
      ghost var s := StatementAt(e, k);
      ghost var more: Code := [];
      match variables[symbol] {
        case Virtual(None) =>
          return None;
        case Virtual(Some(node)) =>
          n := Some(node);
          VirtualReadImplemented(emitter.meaning, s, k, variables, nodes);
        case Stack(slot) =>
          StackReadImplemented(emitter.meaning, s, k, variables, nodes, v0.nextTemp, promoted);
          more := [Load(v0.nextTemp, slot)];
          var t := emitter.ReadStackVariable(slot);
          n := Some(t);
          StoreBelowMono(variables, v0.nextTemp, promoted, emitter.nextTemp, promoted);
      }
      assert v0.blocks[e] + [] == v0.blocks[e];
      Advance(emitter.meaning, f, v0, View(), exit, e, k, more, variables, nodes, variables, nodes[k := n.value]);
    }

    /** The one stack slot of a variable in this function, allocated on first use. */
    method PromotedSlot(symbol: Name) returns (slot: nat)
      modifies emitter`nextSlot, this`promoted
      ensures View() == WithSlot(old(View()), symbol) && slot == promoted[symbol]
    {
      if symbol !in promoted {
        slot := emitter.AllocateSlot();
        promoted := promoted[symbol := slot];
      }
      slot := promoted[symbol];
    }

    /** A write in a dynamic block first moves a virtual variable to its stack slot. */
    method WriteVariable(e: nat, k: nat, variables: VariableStore, nodes: map<nat, Node>,
                         symbol: Name, value: nat, isDynamic: bool)
      returns (variables': VariableStore)
      requires Midway(e, k, variables, nodes)
      requires k < |f.blocks[keys[e].block]| && StatementAt(e, k) == Statement.WriteVariable(symbol, value)
      requires value in nodes
      modifies emitter`blocks, emitter`nextSlot, this`promoted
      ensures Midway(e, k + 1, variables', nodes)
      ensures variables'.Keys == variables.Keys + {symbol} && (Definite(variables) ==> Definite(variables'))
      ensures variables' == variables[symbol := variables'[symbol]]
      ensures variables'[symbol].Stack? <==> isDynamic || (symbol in variables && variables[symbol].Stack?)
      ensures match variables'[symbol]
              case Virtual(n) => n == Some(nodes[value]) && emitter.blocks == old(emitter.blocks)
              case Stack(slot) =>
                && symbol in promoted && slot == promoted[symbol]
                && emitter.blocks[e] == old(emitter.blocks[e]) + [Store(slot, nodes[value])]
      ensures |emitter.blocks| == |old(emitter.blocks)|
      ensures forall i :: 0 <= i < |emitter.blocks| && i != e ==> emitter.blocks[i] == old(emitter.blocks[i])
    {
      ghost var s := StatementAt(e, k);
      var variable := if symbol in variables then variables[symbol] else Virtual(None);
      if variable.Virtual? && !isDynamic {
        variables' := variables[symbol := Virtual(Some(nodes[value]))];
        AdvanceVirtualWrite(emitter.meaning, f, View(), exit, e, k, s, variables, nodes);
      } else {
        var slot;
        if variable.Virtual? {
          AdvanceStackWrite(emitter.meaning, f, View(), exit, e, k, s, variables, nodes,
                            WithSlot(View(), symbol).promoted[symbol]);
          slot := PromotedSlot(symbol);
        } else {
          slot := variable.slot;
          AdvanceStackWrite(emitter.meaning, f, View(), exit, e, k, s, variables, nodes, slot);
        }
        variables' := variables[symbol := Stack(slot)];
        emitter.Push(Store(slot, nodes[value]));
      }
    }

    method Compute(e: nat, k: nat, variables: VariableStore, nodes: map<nat, Node>, op: Operation, args: seq<nat>)
      returns (n: Node)
      requires Midway(e, k, variables, nodes)
      requires k < |f.blocks[keys[e].block]| && StatementAt(e, k) == Statement.Compute(op, args)
      requires AllIn(args, nodes)
      modifies emitter`blocks, emitter`nextTemp
      ensures Midway(e, k + 1, variables, nodes[k := n])
      ensures |emitter.blocks| == |old(emitter.blocks)|
      ensures forall i :: 0 <= i < |emitter.blocks| && i != e ==> emitter.blocks[i] == old(emitter.blocks[i])
    {
      ghost var v0 := View();
      ghost var s := StatementAt(e, k);
      ghost var more: Code := [];
      var operands := Resolve(args, nodes);
      n := emitter.Operate(op, operands);
      match n {
        case Const(_) =>
          FoldImplemented(emitter.meaning, s, k, variables, nodes,
            seq(|operands|, i requires 0 <= i < |operands| => if operands[i].Const? then operands[i].word else 0));
        case Temp(_) =>
          more := [Instruction.Operate(v0.nextTemp, op, operands)];
          ComputeImplemented(emitter.meaning, s, k, variables, nodes, v0.nextTemp, promoted);
      }
      StoreBelowMono(variables, v0.nextTemp, promoted, emitter.nextTemp, promoted);
      assert v0.blocks[e] + [] == v0.blocks[e];
      Advance(emitter.meaning, f, v0, View(), exit, e, k, more, variables, nodes, variables, nodes[k := n]);
    }

    twostate predicate Emitted(e: nat, flow: Flow)
      reads this, emitter
    {
      TranslatorState.Emitted(emitter.meaning, f, old(View()), View(), exit, e, flow)
    }

    /** Continues in a new block made for this path alone. */
    method StaticJump(e: nat, k: nat, variables: VariableStore, nodes: map<nat, Node>, target: nat)
      returns (flow: Flow)
      requires Midway(e, k, variables, nodes)
      requires k < |f.blocks[keys[e].block]| && IsControlFlow(StatementAt(e, k))
      requires forall m, fr {:trigger InStep(m, fr, variables, nodes)} :: InStep(m, fr, variables, nodes) ==>
                 Leave(StatementAt(e, k), fr) == Next(target, fr.locals)
      modifies this`keys, emitter`blocks
      ensures flow.Static? && Emitted(e, flow) && flow.block == target && flow.store == variables
    {
      CloseJump(emitter.meaning, f, View(), exit, e, k, target, variables, nodes);
      var x86 := emitter.CreateBlock();
      keys := keys[x86 := Key(target, variables)];
      emitter.Push(JumpTo(x86));
      flow := Static(target, x86, variables);
    }

    /** The emitted block shared by all paths that reach `key`. */
    method DynamicBlock(key: Key) returns (x86: nat)
      modifies this`keys, this`dynamicBlocks, emitter`blocks
      ensures Finds(old(View()), View(), key, x86)
    {
      if key !in dynamicBlocks {
        x86 := emitter.CreateBlock();
        dynamicBlocks := dynamicBlocks[key := x86];
        keys := keys[x86 := key];
      }
      x86 := dynamicBlocks[key];
    }

    /** The blocks of both keys, found or made. */
    method DynamicBlocks(key0: Key, key1: Key) returns (t: nat, u: nat, ghost v1: View)
      modifies this`keys, this`dynamicBlocks, emitter`blocks
      ensures Finds(old(View()), v1, key0, t) && Finds(v1, View(), key1, u)
    {
      hide Finds;
      t := DynamicBlock(key0);
      v1 := View();
      u := DynamicBlock(key1);
    }

    method DynamicBranch(e: nat, k: nat, variables: VariableStore, nodes: map<nat, Node>,
                         condition: nat, trueTarget: nat, falseTarget: nat)
      returns (flow: Flow)
      requires Midway(e, k, variables, nodes)
      requires k < |f.blocks[keys[e].block]| && StatementAt(e, k) == Branch(condition, trueTarget, falseTarget)
      requires condition in nodes
      modifies this`keys, this`dynamicBlocks, emitter`blocks
      ensures flow.Dynamic? && Emitted(e, flow)
      ensures flow == Dynamic(trueTarget, falseTarget, variables)
    {
      hide Consistent, Tracks, Leaves, Finds;
      ghost var v0 := View();
      var trueX86, falseX86; ghost var v1;
      trueX86, falseX86, v1 := DynamicBlocks(Key(trueTarget, variables), Key(falseTarget, variables));
      CloseBranch(emitter.meaning, f, v0, v1, View(), exit, e, k, Branch(condition, trueTarget, falseTarget),
                  trueX86, falseX86, variables, nodes);
      emitter.Push(BranchTo(nodes[condition], trueX86, falseX86));
      flow := Dynamic(trueTarget, falseTarget, variables);
    }

    /** Before the second return: stores the results of the first one in fresh slots, in front of
        its jump, and lets every later return use those slots. */
    method PromoteReturn(p: nat, index: nat)
      requires AllVirtual(results) && forall r <- results :: r.node.Some?
      requires p < |emitter.blocks| && index <= |emitter.blocks[p]|
      modifies this`results, emitter`blocks, emitter`current, emitter`nextSlot
      ensures var n := |old(results)|;
        && results == Slots(Fresh(old(emitter.nextSlot), n))
        && emitter.nextSlot == old(emitter.nextSlot) + n
        && emitter.current == old(emitter.current)
        && emitter.blocks == old(emitter.blocks)[p :=
             old(emitter.blocks)[p][..index] + StoreAll(Fresh(old(emitter.nextSlot), n), NodesOf(old(results)))
             + old(emitter.blocks)[p][index..]]
    {
      var currentBlock := emitter.current;
      emitter.current := p;
      var before, post := emitter.blocks[p][..index], emitter.blocks[p][index..];
      emitter.blocks := emitter.blocks[p := before];
      var stackVariables: seq<Variable> := [];
      ghost var first, values := emitter.nextSlot, NodesOf(results);
      ghost var stores := StoreAll(Fresh(first, |results|), values);
      assert before == before + stores[..0];
      for i := 0 to |results|
        invariant emitter.current == p && emitter.nextSlot == first + i && results == old(results)
        invariant |emitter.blocks| == |old(emitter.blocks)|
        invariant emitter.blocks == old(emitter.blocks)[p := before + stores[..i]]
        invariant stackVariables == Slots(Fresh(first, |results|))[..i]
      {
        var slot := emitter.AllocateSlot();
        emitter.Push(Store(slot, results[i].node.value));
        stackVariables := stackVariables + [Stack(slot)];
        assert stores[..i + 1] == stores[..i] + [stores[i]];
        assert before + stores[..i + 1] == before + stores[..i] + [stores[i]];
      }
      assert stores[..|results|] == stores;
      emitter.blocks := emitter.blocks[p := emitter.blocks[p] + post];
      emitter.current := currentBlock;
      results := stackVariables;
    }

    /** Stores the results in their slots and jumps to the exit block. */
    method StoreResults(values: seq<Node>)
      requires |values| == |results| && AllStack(results)
      requires emitter.current < |emitter.blocks|
      modifies emitter`blocks
      ensures emitter.blocks == old(emitter.blocks)[emitter.current :=
                old(emitter.blocks)[emitter.current] + StoreAll(SlotsOf(results), values) + [JumpTo(exit)]]
    {
      ghost var before := emitter.blocks[emitter.current];
      ghost var stores := StoreAll(SlotsOf(results), values);
      assert before == before + stores[..0];
      for i := 0 to |values|
        invariant emitter.blocks == old(emitter.blocks)[emitter.current := before + stores[..i]]
      {
        assert stores[..i + 1] == stores[..i] + [stores[i]];
        assert before + stores[..i + 1] == before + stores[..i] + [stores[i]];
        emitter.Push(Store(results[i].slot, values[i]));
      }
      assert stores[..|values|] == stores;
      emitter.Push(JumpTo(exit));
    }

    /** The first return translated leaves its values in nodes. */
    method ReturnFirst(e: nat, k: nat, variables: VariableStore, nodes: map<nat, Node>, values: seq<Node>)
      requires Midway(e, k, variables, nodes) && Returning(f, View(), e, k, nodes, values)
      requires |values| > 0 ==> AllVirtual(results) && previousWrite.None?
      modifies this`results, this`previousWrite, emitter`blocks
      ensures Emitted(e, Finished)
      ensures emitter.blocks[e] == old(emitter.blocks[e]) + [JumpTo(exit)]
      ensures |values| > 0 ==> results == Nodes(values) && previousWrite == Some((e, |old(emitter.blocks[e])|))
    {
      CloseReturnPlain(emitter.meaning, f, View(), exit, e, k, variables, nodes, values);
      if |values| > 0 {
        previousWrite := Some((e, |emitter.blocks[e]|));
        results := Nodes(values);
      }
      emitter.Push(JumpTo(exit));
    }

    method ReturnToSlots(e: nat, k: nat, variables: VariableStore, nodes: map<nat, Node>, values: seq<Node>)
      requires Midway(e, k, variables, nodes) && Returning(f, View(), e, k, nodes, values)
      requires ReturnsStack(View())
      modifies emitter`blocks
      ensures Emitted(e, Finished)
    {
      CloseReturnStack(emitter.meaning, f, View(), exit, e, k, variables, nodes, values);
      StoreResults(values);
    }

    /** Moves the results of the first return from nodes to stack slots. */
    method RepairFirst(e: nat, k: nat, variables: VariableStore, nodes: map<nat, Node>)
      requires Midway(e, k, variables, nodes) && ReturnsVirtual(f, View(), exit, e) && previousWrite.Some?
      modifies this`results, emitter`blocks, emitter`current, emitter`nextSlot
      ensures Midway(e, k, variables, nodes) && ReturnsStack(View()) && |emitter.blocks| == |old(emitter.blocks)|
      ensures forall i :: 0 <= i < |emitter.blocks| ==> (emitter.blocks[i] == [] <==> old(emitter.blocks[i]) == [])
    {
      hide Tracks, Consistent;
      var (p, index) := previousWrite.value;
      MidwayPromoteReturn(emitter.meaning, f, View(), exit, e, k, variables, nodes, p, index, NodesOf(results));
      PromoteReturn(p, index);
    }

    /** Every later return uses stack slots; the second one also repairs the first. */
    method ReturnAgain(e: nat, k: nat, variables: VariableStore, nodes: map<nat, Node>, values: seq<Node>)
      requires Midway(e, k, variables, nodes) && Returning(f, View(), e, k, nodes, values)
      requires ReturnsStack(View()) || (ReturnsVirtual(f, View(), exit, e) && previousWrite.Some?)
      requires |values| > 0
      modifies this`results, emitter`blocks, emitter`current, emitter`nextSlot
      ensures Emitted(e, Finished) && ReturnsStack(View())
    {
      assert |results| > 0 && results[0] in results;
      assert results[0].Virtual? <==> !ReturnsStack(View());
      hide Consistent, Tracks, ReturnsStack, ReturnsVirtual, Leaves;
      ghost var v0 := View();
      if results[0].Virtual? {
        RepairFirst(e, k, variables, nodes);
      }
      ghost var v1 := View();
      ReturnToSlots(e, k, variables, nodes, values);
      LeavesFrom(v0, v1, View(), e, Finished);
    }

    method PanicJump(e: nat, k: nat, variables: VariableStore, nodes: map<nat, Node>)
      requires Midway(e, k, variables, nodes)
      requires k < |f.blocks[keys[e].block]| && StatementAt(e, k) == Panic
      requires emitter.panicBlock != exit
      modifies emitter`blocks
      ensures Emitted(e, Finished)
    {
      ClosePanic(emitter.meaning, f, View(), exit, e, k, emitter.panicBlock, variables, nodes);
      emitter.Panic();
    }

    /** Nothing but the code of block `e` and fresh names has changed since `v`. */
    ghost predicate OnlyFilled(v: View, e: nat)
      reads this, emitter
    {
      && keys == v.keys && dynamicBlocks == v.dynamicBlocks
      && results == v.results && previousWrite == v.previousWrite
      && |emitter.blocks| == |v.blocks|
      && forall i :: 0 <= i < |v.blocks| && i != e ==> emitter.blocks[i] == v.blocks[i]
    }

    method CheckStatement(e: nat, k: nat, variables: VariableStore, nodes: map<nat, Node>, condition: nat)
      requires Midway(e, k, variables, nodes)
      requires k < |f.blocks[keys[e].block]| && StatementAt(e, k) == Assert(condition) && condition in nodes
      modifies emitter`blocks
      ensures Midway(e, k + 1, variables, nodes)
      ensures |emitter.blocks| == |old(emitter.blocks)|
      ensures forall i :: 0 <= i < |emitter.blocks| && i != e ==> emitter.blocks[i] == old(emitter.blocks[i])
    {
      ghost var v0 := View();
      AssertImplemented(emitter.meaning, Assert(condition), k, variables, nodes);
      emitter.Check(nodes[condition]);
      Advance(emitter.meaning, f, v0, View(), exit, e, k, AssertCode(nodes[condition]), variables, nodes, variables,
          nodes);
    }

    /** Translates data statement `k`; None is a translation panic. */
    method TranslateStatement(e: nat, k: nat, s: Statement, variables: VariableStore, nodes: map<nat, Node>,
                              isDynamic: bool)
      returns (next: Option<(VariableStore, map<nat, Node>)>)
      requires Midway(e, k, variables, nodes)
      requires k < |f.blocks[keys[e].block]| && StatementAt(e, k) == s && !IsControlFlow(s)
      modifies this`promoted, emitter`blocks, emitter`nextTemp, emitter`nextSlot
      ensures next.Some? ==> Midway(e, k + 1, next.value.0, next.value.1)
      ensures Definite(variables) ==> (next.Some? <==> StatementOk(s, variables.Keys, nodes.Keys))
      ensures next.Some? ==> next.value.0.Keys == VarsAfter(s, variables.Keys)
      ensures next.Some? ==> next.value.1.Keys == RefsAfter(s, k, nodes.Keys)
      ensures next.Some? && Definite(variables) ==> Definite(next.value.0)
      ensures |emitter.blocks| == |old(emitter.blocks)|
      ensures forall i :: 0 <= i < |emitter.blocks| && i != e ==> emitter.blocks[i] == old(emitter.blocks[i])
    {
      match s {
        case Constant(c) =>
          AdvanceConstant(emitter.meaning, f, View(), exit, e, k, s, variables, nodes);
          next := Some((variables, nodes[k := Const(c)]));
        case ReadVariable(symbol) =>
          if symbol !in variables {
            return None;
          }
          var n := ReadVariable(e, k, variables, nodes, symbol);
          next := if n.Some? then Some((variables, nodes[k := n.value])) else None;
        case WriteVariable(symbol, value) =>
          if value !in nodes {
            return None;
          }
          var variables' := WriteVariable(e, k, variables, nodes, symbol, value, isDynamic);
          next := Some((variables', nodes));
        case Compute(op, args) =>
          if !AllIn(args, nodes) {
            return None;
          }
          var n := Compute(e, k, variables, nodes, op, args);
          next := Some((variables, nodes[k := n]));
        case Assert(condition) =>
          if condition !in nodes {
            return None;
          }
          CheckStatement(e, k, variables, nodes, condition);
          next := Some((variables, nodes));
      }
    }

    /** Translates control-flow statement `k`. */
    method TranslateControlFlow(e: nat, k: nat, s: Statement, variables: VariableStore, nodes: map<nat, Node>)
      returns (flow: Flow)
      requires Midway(e, k, variables, nodes)
      requires k < |f.blocks[keys[e].block]| && StatementAt(e, k) == s && IsControlFlow(s)
      requires emitter.panicBlock != exit && WellTyped(f)
      modifies this, emitter
      ensures !flow.Failed? ==> Emitted(e, flow)
      ensures (flow.Failed? <==> !FlowOk(s, nodes.Keys)) && FlowFollows(s, flow, variables)
      ensures flow.Static? <==> s.Jump? || (s.Branch? && s.condition in nodes && nodes[s.condition].Const?)
      ensures flow.Dynamic? <==> s.Branch? && s.condition in nodes && nodes[s.condition].Temp?
    {
      flow := Failed;
      match s {
        case Jump(target) =>
          flow := StaticJump(e, k, variables, nodes, target);
        case Branch(condition, trueTarget, falseTarget) =>
          if condition in nodes {
            match nodes[condition] {
              case Const(w) =>
                flow := StaticJump(e, k, variables, nodes, if w == 0 then falseTarget else trueTarget);
              case Temp(_) =>
                flow := DynamicBranch(e, k, variables, nodes, condition, trueTarget, falseTarget);
            }
          }
        case Return(values) =>
          if AllIn(values, nodes) {
            if |values| == 0 || (results[0].Virtual? && previousWrite.None?) {
              assert |values| > 0 ==> results[0] in results;
              ReturnFirst(e, k, variables, nodes, Resolve(values, nodes));
            } else {
              assert results[0] in results;
              ReturnAgain(e, k, variables, nodes, Resolve(values, nodes));
            }
            flow := Finished;
          }
        case Panic =>
          PanicJump(e, k, variables, nodes);
          flow := Finished;
      }
    }

    /** Translates the data statements at the front of a block; None is a translation panic. */
    method TranslateData(e: nat, b: nat, store: VariableStore, isDynamic: bool)
      returns (k: nat, variables: VariableStore, nodes: Option<map<nat, Node>>)
      requires Midway(e, 0, store, map[]) && keys[e].block == b
      modifies this`promoted, emitter`blocks, emitter`nextTemp, emitter`nextSlot
      ensures OnlyFilled(old(View()), e)
      ensures nodes.Some? ==> Midway(e, k, variables, nodes.value)
      ensures nodes.Some? ==> k < |f.blocks[b]| && IsControlFlow(f.blocks[b][k])
      ensures nodes.Some? ==> variables.Keys == VarsAtEnd(f.blocks[b], 0, store.Keys)
      ensures Definite(store) ==>
                (BlockOk(f.blocks[b], 0, store.Keys, {}) <==> nodes.Some? && FlowOk(f.blocks[b][k], nodes.value.Keys))
      ensures Definite(store) && nodes.Some? ==> Definite(variables)
    {
      hide Consistent, Tracks, Definite, StatementOk, FlowOk;
      ghost var v0 := View();
      k, variables := 0, store;
      var values: map<nat, Node> := map[];
      assert values.Keys == {};
      while k < |f.blocks[b]| && !IsControlFlow(f.blocks[b][k])
        invariant OnlyFilled(v0, e) && Midway(e, k, variables, values)
        invariant VarsAtEnd(f.blocks[b], k, variables.Keys) == VarsAtEnd(f.blocks[b], 0, store.Keys)
        invariant Definite(store) ==> Definite(variables)
        invariant Definite(store) ==>
                    (BlockOk(f.blocks[b], k, variables.Keys, values.Keys) <==> BlockOk(f.blocks[b], 0, store.Keys, {}))
      {
        var next := TranslateStatement(e, k, f.blocks[b][k], variables, values, isDynamic);
        if next.None? {
          nodes := None;
          return;
        }
        variables, values := next.value.0, next.value.1;
        k := k + 1;
      }
      nodes := if k < |f.blocks[b]| then Some(values) else None;
    }

    /** Translates a whole Rudder block, specialised on `store`, into emitted block `e`. */
    method TranslateBlock(e: nat, b: nat, store: VariableStore, isDynamic: bool) returns (flow: Flow)
      requires Valid(exit) && e in keys && keys[e] == Key(b, store) && emitter.blocks[e] == []
      requires b < |f.blocks| && emitter.panicBlock != exit && WellTyped(f)
      modifies this, emitter
      ensures !flow.Failed? ==> Emitted(e, flow)
      ensures Definite(store) ==> (flow.Failed? <==> !BlockOk(f.blocks[b], 0, store.Keys, {}))
      ensures FlowHandsOn(f, b, store, flow)
    {
      ghost var v0 := View();
      emitter.current := e;
      MidwayStart(emitter.meaning, f, v0, exit, e);
      var k, variables, nodes := TranslateData(e, b, store, isDynamic);
      if nodes.None? {
        return Failed;
      }
      ghost var vk := View();
      flow := TranslateControlFlow(e, k, f.blocks[b][k], variables, nodes.value);
      if !flow.Failed? {
        LeavesFill(v0, vk, View(), e, flow);
      }
    }

    /** Reads the result variables in the exit block; None is a translation panic. */
    method ReadReturnValue() returns (r: Option<seq<Node>>)
      requires exit < |emitter.blocks| && emitter.blocks[exit] == []
      requires AllVirtual(results) || AllStack(results)
      modifies emitter`blocks, emitter`current, emitter`nextTemp
      ensures |emitter.blocks| == |old(emitter.blocks)|
      ensures forall i :: 0 <= i < |emitter.blocks| && i != exit ==> emitter.blocks[i] == old(emitter.blocks[i])
      ensures r.Some? ==> ReadsResults(emitter.meaning, emitter.blocks[exit], results, r.value)
      ensures r.None? ==> Virtual(None) in results
    {
      emitter.current := exit;
      var nodes: seq<Node> := [];
      ghost var first := emitter.nextTemp;
      ghost var loads := if AllStack(results) then LoadAll(first, SlotsOf(results)) else [];
      for i := 0 to |results|
        invariant emitter.current == exit && |emitter.blocks| == |old(emitter.blocks)| && |nodes| == i
        invariant forall j :: 0 <= j < |emitter.blocks| && j != exit ==> emitter.blocks[j] == old(emitter.blocks[j])
        invariant AllVirtual(results) ==>
          emitter.blocks[exit] == [] && forall j :: 0 <= j < i ==> results[j].node == Some(nodes[j])
        invariant AllStack(results) ==>
          && emitter.nextTemp == first + i && emitter.blocks[exit] == loads[..i]
          && forall j :: 0 <= j < i ==> nodes[j] == Temp(first + j)
      {
        assert results[i] in results;
        match results[i] {
          case Virtual(None) =>
            return None;
          case Virtual(Some(n)) =>
            nodes := nodes + [n];
          case Stack(slot) =>
            assert loads[..i + 1] == loads[..i] + [loads[i]];
            var n := emitter.ReadStackVariable(slot);
            nodes := nodes + [n];
        }
      }
      if AllStack(results) {
        assert loads[..|results|] == loads;
        LoadAllReads(emitter.meaning, results, first, nodes);
      }
      r := Some(nodes);
    }

    /** When nothing is left to translate, the results are read in the exit block. */
    method Finish() returns (r: Result)
      requires Valid(exit) && QueueOk([], View()) && |arguments| == |f.parameters|
      requires entry in keys && keys[entry] == Key(f.entry, Bind(f.parameters, Nodes(arguments)))
      modifies emitter
      ensures r.Translated? || r.NoReturn?
      ensures r.Translated? ==> PreservesMeaning(emitter.meaning, f, emitter.blocks, entry, exit, arguments, r.results)
      ensures r.NoReturn? ==> NeverReturns(emitter.meaning, f, arguments)
    {
      EmptyQueueCertified(emitter.meaning, f, View(), exit);
      ghost var blocks := emitter.blocks;
      var nodes := ReadReturnValue();
      if nodes.None? {
        UnreadNeverReturns(emitter.meaning, f, blocks, keys, entry, exit, results, arguments);
        return NoReturn;
      }
      CertifiedPreservesMeaning(emitter.meaning, f, blocks, emitter.blocks, keys, entry, exit, results,
                                arguments, nodes.value);
      r := Translated(nodes.value);
    }

    /** The queue after its first block is translated, or skipped because it has been; None is a
        translation panic. */
    method TranslateJob(queue: seq<Job>, ghost defined: seq<set<Name>>, ghost bound: nat)
        returns (next: Option<seq<Job>>)
      requires queue != [] && queue[0].block < |f.blocks| && Valid(exit) && QueueOk(queue, View())
      requires emitter.panicBlock != exit && WellTyped(f)
      modifies this, emitter
      ensures next.Some? ==> Valid(exit) && QueueOk(next.value, View())
      ensures next.Some? ==> forall i :: i in old(keys) ==> i in keys && keys[i] == old(keys)[i]
      ensures next.Some? ==> Requeued(queue, next.value)
      ensures WellFormed(f, defined) && QueueWell(f, defined, queue) ==> next.Some? && QueueWell(f, defined, next.value)
      ensures next.Some? && Forward(f) && QueueLight(queue, |f.blocks|, bound) ==>
                QueueLight(next.value, |f.blocks|, bound) && ToDo(next.value, |f.blocks|) < ToDo(queue, |f.blocks|)
    {
      RequeuedAll(queue, queue[0], queue[0]);
      hide FlowHandsOn, MayFollow, QueueWell, QueueLight, WellFormed, Forward, Requeued;
      FirstWell(f, defined, queue);
      var job := queue[0];
      ghost var v0 := View();
      if job.isDynamic && emitter.blocks[job.x86] != [] {
        SkipJob(queue, v0);
        DropWell(f, defined, queue, bound);
        return Some(queue[1..]);
      }
      var flow := TranslateBlock(job.x86, job.block, job.store, job.isDynamic);
      match flow {
        case Failed =>
          next := None;
        case Finished =>
          FinishJob(queue, v0, View());
          DropWell(f, defined, queue, bound);
          next := Some(queue[1..]);
        case Static(b, x86, store) =>
          var j := Job(false, b, x86, store);
          StaticJob(queue, v0, View(), b, x86, store);
          FlowMayFollow(f, defined, job, flow, j);
          StaticWell(f, defined, queue, bound, j);
          RequeuedAll(queue, j, j);
          next := Some([j] + queue[1..]);
        case Dynamic(b0, b1, store) =>
          DynamicJobs(queue, v0, View(), b0, b1, store);
          var j0 := Job(true, b0, dynamicBlocks[Key(b0, store)], store);
          var j1 := Job(true, b1, dynamicBlocks[Key(b1, store)], store);
          FlowMayFollow(f, defined, job, flow, j0);
          FlowMayFollow(f, defined, job, flow, j1);
          DynamicWell(f, defined, queue, bound, j0, j1);
          RequeuedAll(queue, j0, j1);
          next := Some(queue[1..] + [j0, j1]);
      }
    }

    /** The worklist.  It need not terminate, so it is given a number of steps.  What it translates means
        what the function means; a well-formed function is not refused; a function that only jumps forward
        takes a bounded number of steps; and where no return was translated the function never returns.
        `peak` is the largest number of blocks that were waiting behind the one taken off the queue. */
    method Translate(steps: nat, ghost defined: seq<set<Name>>) returns (r: Result, ghost peak: nat)
      requires Valid(exit) && emitter.panicBlock < exit && WellTyped(f)
      requires |arguments| == |f.parameters|
      requires keys == map[entry := Key(f.entry, Bind(f.parameters, Nodes(arguments)))] && dynamicBlocks == map[]
      requires entry in keys && emitter.blocks[entry] == []
      modifies this, emitter
      ensures r.Translated? ==>
        PreservesMeaning(emitter.meaning, f, emitter.blocks, entry, exit, arguments, r.results)
      ensures WellFormed(f, defined) ==> !r.Malformed?
      ensures Forward(f) && steps >= Pow2(|f.blocks|) - 1 ==> !r.OutOfSteps?
      ensures r.QueueFull? <==> peak > 1000
      ensures Forward(f) && Pow2(|f.blocks| - 1) <= 1001 ==> !r.QueueFull?
      ensures r.NoReturn? ==> NeverReturns(emitter.meaning, f, arguments)
    {
      hide QueueWell, QueueLight, WellFormed, Forward, NeverReturns, PreservesMeaning, ToDo, Pow2;
      var remaining := steps;
      peak := 0;
      var queue := [Job(false, f.entry, entry, Bind(f.parameters, Nodes(arguments)))];
      ghost var bound := if |f.blocks| > 0 then Pow2(|f.blocks| - 1) else 0;
      StartWell(f, defined, arguments, queue);
      assert queue[0].x86 == entry;
      while queue != []
        invariant Valid(exit) && QueueOk(queue, View()) && peak <= 1000
        invariant entry in keys && keys[entry] == Key(f.entry, Bind(f.parameters, Nodes(arguments)))
        invariant WellFormed(f, defined) ==> QueueWell(f, defined, queue)
        invariant Forward(f) ==> QueueLight(queue, |f.blocks|, bound)
        invariant Forward(f) && steps >= Pow2(|f.blocks|) - 1 ==> ToDo(queue, |f.blocks|) <= remaining
        decreases remaining
      {
        QueueBounds(queue, |f.blocks|, bound);
        FirstWell(f, defined, queue);
        if remaining == 0 {
          r := OutOfSteps;
          return;
        }
        remaining := remaining - 1;
        var job := queue[0];
        peak := if |queue| - 1 > peak then |queue| - 1 else peak;
        if |queue| - 1 > BLOCK_QUEUE_LIMIT {
          r := QueueFull;
          return;
        }
        if job.block >= |f.blocks| {
          r := Malformed;
          return;
        }
        var next := TranslateJob(queue, defined, bound);
        if next.None? {
          r := Malformed;
          return;
        }
        queue := next.value;
      }
      r := Finish();
    }
  }

  lemma {:induction false} FlowMayFollow(f: Function, defined: seq<set<Name>>, job: Job, flow: Flow, j: Job)
    requires job.block < |f.blocks| && FlowHandsOn(f, job.block, job.store, flow)
    requires match flow
             case Static(b, _, store) => j.block == b && j.store == store
             case Dynamic(b0, b1, store) => (j.block == b0 || j.block == b1) && j.store == store
             case _ => false
    ensures MayFollow(f, defined, job, j)
  {}

  /** The local variables are the parameters, each with the value of its argument; of two parameters of one
      name the later counts. */
  ghost predicate ArgumentsIn(names: seq<Name>, arguments: seq<Node>, m: Machine, locals: Locals)
    requires |arguments| == |names|
  {
    && (forall x :: x in locals <==> x in names)
    && forall i :: 0 <= i < |names| && names[i] !in names[i + 1..] ==> locals[names[i]] == NodeValue(arguments[i], m)
  }

  /** The interpreter does not return, whatever the argument nodes hold. */
  ghost predicate NeverReturns(meaning: Meaning, f: Function, arguments: seq<Node>)
    requires |arguments| == |f.parameters|
  {
    forall m, locals, n: nat {:trigger ArgumentsIn(f.parameters, arguments, m, locals),
        Interpret(meaning, f, f.entry, locals, n)} ::
      ArgumentsIn(f.parameters, arguments, m, locals) ==> !Interpret(meaning, f, f.entry, locals, n).Returned?
  }

  /** If a result was never written, no run returns. */
  lemma {:induction false} UnreadNeverReturns(
    meaning: Meaning, f: Function, blocks: seq<Code>, keys: Keys, entry: nat, exit: nat,
    results: seq<Variable>, arguments: seq<Node>)
    requires Certified(meaning, f, blocks, keys, exit, results) && Virtual(None) in results
    requires |arguments| == |f.parameters|
    requires entry in keys && keys[entry] == Key(f.entry, Bind(f.parameters, Nodes(arguments)))
    ensures NeverReturns(meaning, f, arguments)
  {
    forall m, locals, n: nat | ArgumentsIn(f.parameters, arguments, m, locals)
      ensures !Interpret(meaning, f, f.entry, locals, n).Returned?
    {
      ArgumentsMatch(f.parameters, arguments, m, locals);
      Simulation(meaning, f, blocks, keys, exit, results, entry, m, locals, n);
    }
  }

  lemma {:induction false} StartWell(f: Function, defined: seq<set<Name>>, arguments: seq<Node>, queue: seq<Job>)
    requires |arguments| == |f.parameters| && |queue| == 1
    requires queue[0].block == f.entry && queue[0].store == Bind(f.parameters, Nodes(arguments))
    ensures WellFormed(f, defined) ==> QueueWell(f, defined, queue)
    ensures Forward(f) ==>
              QueueLight(queue, |f.blocks|, Pow2(|f.blocks| - 1)) && ToDo(queue, |f.blocks|) <= Pow2(|f.blocks|) - 1
  {
    BindLookup(f.parameters, Nodes(arguments));
    assert queue == [queue[0]];
    WeightOne(queue[0], |f.blocks|);
    if Forward(f) {
      Pow2Grows(|f.blocks| - f.entry - 1, |f.blocks| - 1);
    }
  }

  /** Running the emitted blocks from `entry`, on any machine, for any number of blocks, does what the
      interpreter does on the values of the argument nodes: it reaches the exit block exactly when the
      interpreter returns, and reading the result nodes there gives the returned words; it traps
      exactly when the interpreter panics. */
  ghost predicate PreservesMeaning(
    meaning: Meaning, f: Function, blocks: seq<Code>, entry: nat, exit: nat, arguments: seq<Node>, results: seq<Node>)
    requires |arguments| == |f.parameters|
  {
    exit < |blocks| && Straight(blocks[exit]) &&
    forall m, locals, n: nat
      {:trigger ArgumentsIn(f.parameters, arguments, m, locals), Run(meaning, blocks, exit, entry, m, n)} ::
      ArgumentsIn(f.parameters, arguments, m, locals) ==>
        EndsAlike(meaning, Run(meaning, blocks, exit, entry, m, n), Interpret(meaning, f, f.entry, locals, n),
                  blocks[exit], exit, results)
  }

  /** Where the emitted blocks have got to is where the interpreter has; once it has returned, the code of the
      exit block makes the result nodes hold the returned words, in order. */
  ghost predicate EndsAlike(meaning: Meaning, x: Exit, r: BlockResult, exitCode: Code, exit: nat, results: seq<Node>)
    requires Straight(exitCode)
  {
    match r
    case Next(_, _) => x.Goto? && x.block != exit
    case Panicked => x.Trapped?
    case Returned(words) =>
      && x.Goto? && x.block == exit && |results| == |words|
      && var m' := RunStraight(meaning, exitCode, x.machine);
         m'.Some? && forall i :: 0 <= i < |words| ==> NodeValue(results[i], m'.value) == words[i]
  }

  /** Whatever the results are, running `code` makes the nodes hold them. */
  ghost predicate ReadsResults(meaning: Meaning, code: Code, results: seq<Variable>, nodes: seq<Node>) {
    && Straight(code)
    && forall m, words {:trigger ResultsMatch(results, m, words)} :: ResultsMatch(results, m, words) ==>
         var m' := RunStraight(meaning, code, m);
         m'.Some? && NodeValues(nodes, m'.value) == words
  }

  function LoadAll(first: nat, slots: seq<nat>): (c: Code)
    ensures |c| == |slots| && Straight(c)
  {
    seq(|slots|, i requires 0 <= i < |slots| => Load(first + i, slots[i]))
  }

  lemma {:induction false} RunLoads(meaning: Meaning, first: nat, slots: seq<nat>, m: Machine) returns (m': Machine)
    ensures RunStraight(meaning, LoadAll(first, slots), m) == Some(m') && m'.stack == m.stack
    ensures forall i :: 0 <= i < |slots| ==> NodeValue(Temp(first + i), m') == SlotValue(slots[i], m)
  {
    if slots == [] {
      m' := m;
    } else {
      var n := |slots| - 1;
      var m1 := RunLoads(meaning, first, slots[..n], m);
      assert LoadAll(first, slots)[..n] == LoadAll(first, slots[..n]);
      m' := m1.(temps := m1.temps[first + n := SlotValue(slots[n], m1)]);
    }
  }

  lemma {:induction false} LoadAllReads(meaning: Meaning, results: seq<Variable>, first: nat, nodes: seq<Node>)
    requires AllStack(results) && |nodes| == |results|
    requires forall j :: 0 <= j < |nodes| ==> nodes[j] == Temp(first + j)
    ensures ReadsResults(meaning, LoadAll(first, SlotsOf(results)), results, nodes)
  {
    var slots := SlotsOf(results);
    forall m, words | ResultsMatch(results, m, words)
      ensures var m' := RunStraight(meaning, LoadAll(first, slots), m);
              m'.Some? && NodeValues(nodes, m'.value) == words
    {
      var m' := RunLoads(meaning, first, slots, m);
      forall j | 0 <= j < |words| ensures NodeValues(nodes, m')[j] == words[j] {
        assert results[j] in results;
        assert VariableValue(results[j], m) == Some(words[j]);
        assert NodeValue(Temp(first + j), m') == SlotValue(slots[j], m);
      }
    }
  }

  /** The entry store describes every machine and the locals that hold its arguments. */
  lemma {:induction false} ArgumentsMatch(names: seq<Name>, arguments: seq<Node>, m: Machine, locals: Locals)
    requires |names| == |arguments| && ArgumentsIn(names, arguments, m, locals)
    ensures Matches(Bind(names, Nodes(arguments)), m, locals)
  {
    var store := Bind(names, Nodes(arguments));
    BindLookup(names, Nodes(arguments));
    forall x | x in names
      ensures x in store && VariableValue(store[x], m) == Some(locals[x])
    {
      var i := LastIndex(names, x);
      BindAt(names, Nodes(arguments), i);
    }
  }

  lemma {:induction false} LastIndex(names: seq<Name>, x: Name) returns (i: nat)
    requires x in names
    ensures i < |names| && names[i] == x && x !in names[i + 1..]
  {
    i := |names| - 1;
    if names[i] != x {
      i := LastIndex(names[..i], x);
      assert names[i + 1..] == names[..|names| - 1][i + 1..] + [names[|names| - 1]];
    }
  }

  lemma {:induction false} SameRun(meaning: Meaning, blocks: seq<Code>, blocks': seq<Code>, exit: nat, b: nat,
      m: Machine, n: nat)
    requires |blocks| == |blocks'| && forall i :: 0 <= i < |blocks| && i != exit ==> blocks'[i] == blocks[i]
    ensures Run(meaning, blocks', exit, b, m, n) == Run(meaning, blocks, exit, b, m, n)
    decreases n
  {
    if n != 0 && b != exit && b < |blocks| {
      var x := RunBlock(meaning, blocks[b], m);
      if x.Goto? {
        SameRun(meaning, blocks, blocks', exit, x.block, x.machine, n - 1);
      }
    }
  }

  lemma {:induction false} CertifiedPreservesMeaning(
    meaning: Meaning, f: Function, blocks: seq<Code>, blocks': seq<Code>, keys: Keys, entry: nat, exit: nat,
    results: seq<Variable>, arguments: seq<Node>, nodes: seq<Node>)
    requires Certified(meaning, f, blocks, keys, exit, results)
    requires |arguments| == |f.parameters|
    requires entry in keys && keys[entry] == Key(f.entry, Bind(f.parameters, Nodes(arguments)))
    requires exit < |blocks| == |blocks'|
    requires forall i :: 0 <= i < |blocks| && i != exit ==> blocks'[i] == blocks[i]
    requires ReadsResults(meaning, blocks'[exit], results, nodes)
    ensures PreservesMeaning(meaning, f, blocks', entry, exit, arguments, nodes)
  {
    forall m, locals, n: nat | ArgumentsIn(f.parameters, arguments, m, locals)
      ensures EndsAlike(meaning, Run(meaning, blocks', exit, entry, m, n), Interpret(meaning, f, f.entry, locals, n),
                        blocks'[exit], exit, nodes)
    {
      ArgumentsMatch(f.parameters, arguments, m, locals);
      SameRun(meaning, blocks, blocks', exit, entry, m, n);
      Simulation(meaning, f, blocks, keys, exit, results, entry, m, locals, n);
    }
  }

  function NodesOf(results: seq<Variable>): (r: seq<Node>)
    requires AllVirtual(results) && forall v <- results :: v.node.Some?
    ensures |r| == |results| && results == Nodes(r)
  {
    var r := seq(|results|, i requires 0 <= i < |results| => results[i].node.value);
    assert forall i :: 0 <= i < |results| ==> results[i] == Nodes(r)[i];
    r
  }

  ghost predicate DistinctNames(names: seq<Name>) {
    forall i, j :: 0 <= i < j < |names| ==> names[i] != names[j]
  }

  function Bind<T>(names: seq<Name>, values: seq<T>): map<Name, T>
    requires |names| == |values|
  {
    if names == [] then map[]
    else Bind(names[..|names| - 1], values[..|names| - 1])[names[|names| - 1] := values[|names| - 1]]
  }

  /** A name is bound to the value at its last position. */
  lemma {:induction false} BindAt<T>(names: seq<Name>, values: seq<T>, i: nat)
    requires |names| == |values| && i < |names| && names[i] !in names[i + 1..]
    ensures names[i] in Bind(names, values) && Bind(names, values)[names[i]] == values[i]
  {
    var n := |names| - 1;
    if i < n {
      assert names[n] in names[i + 1..];
      assert names[..n][i + 1..] == names[i + 1..][..n - i - 1];
      BindAt(names[..n], values[..n], i);
    }
  }

  lemma {:induction false} BindLookup<T>(names: seq<Name>, values: seq<T>)
    requires |names| == |values|
    ensures forall x :: x in Bind(names, values) <==> x in names
    ensures forall x :: x in names ==> Bind(names, values)[x] in values
  {
    if names != [] {
      var n := |names| - 1;
      BindLookup(names[..n], values[..n]);
    }
  }
}
