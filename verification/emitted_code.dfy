/** The code an `Emitter` builds, and what running it does.

    A node is a constant or a temporary assigned where the operation is emitted.
    Blocks are lists of instructions ended by a jump, a branch or a trap. */
module EmittedCode {
  import opened Wrappers
  import opened Rudder

  datatype Node = Const(word: Word) | Temp(id: nat)

  datatype Instruction =
    | Operate(dst: nat, op: Operation, args: seq<Node>)
    | Load(dst: nat, slot: nat)
    | Store(slot: nat, value: Node)
    | Check(condition: Node)
    | Trap
    | JumpTo(block: nat)
    | BranchTo(condition: Node, trueBlock: nat, falseBlock: nat)

  type Code = seq<Instruction>

  datatype Machine = Machine(temps: map<nat, Word>, stack: map<nat, Word>)

  function NodeValue(n: Node, m: Machine): Word {
    match n
    case Const(w) => w
    case Temp(t) => if t in m.temps then m.temps[t] else 0
  }

  function NodeValues(ns: seq<Node>, m: Machine): (r: seq<Word>)
    ensures |r| == |ns| && forall i :: 0 <= i < |ns| ==> r[i] == NodeValue(ns[i], m)
  {
    seq(|ns|, i requires 0 <= i < |ns| => NodeValue(ns[i], m))
  }

  function SlotValue(slot: nat, m: Machine): Word {
    if slot in m.stack then m.stack[slot] else 0
  }

  predicate Ends(i: Instruction) {
    i.JumpTo? || i.BranchTo?
  }

  /** Runs one instruction that does not jump; None is a trap. */
  function Step(meaning: Meaning, i: Instruction, m: Machine): Option<Machine>
    requires !Ends(i)
  {
    match i
    case Operate(t, op, args) => Some(m.(temps := m.temps[t := meaning(op, NodeValues(args, m))]))
    case Load(t, slot) => Some(m.(temps := m.temps[t := SlotValue(slot, m)]))
    case Store(slot, n) => Some(m.(stack := m.stack[slot := NodeValue(n, m)]))
    case Check(n) => if NodeValue(n, m) != 0 then Some(m) else None
    case Trap => None
  }

  datatype Exit = Goto(block: nat, machine: Machine) | Trapped | FellOff

  /** Runs a block to its first jump. */
  function RunBlock(meaning: Meaning, code: Code, m: Machine): Exit {
    if code == [] then FellOff
    else
      match code[0]
      case JumpTo(b) => Goto(b, m)
      case BranchTo(c, t, e) => Goto(if NodeValue(c, m) != 0 then t else e, m)
      case i =>
        match Step(meaning, i, m)
        case None => Trapped
        case Some(m') => RunBlock(meaning, code[1..], m')
  }

  /** At most `n` blocks, stopping in front of block `exit`. */
  function Run(meaning: Meaning, blocks: seq<Code>, exit: nat, b: nat, m: Machine, n: nat): Exit
    decreases n
  {
    if n == 0 || b == exit then Goto(b, m)
    else if b >= |blocks| then FellOff
    else
      match RunBlock(meaning, blocks[b], m)
      case Goto(b', m') => Run(meaning, blocks, exit, b', m', n - 1)
      case r => r
  }

  predicate Straight(code: Code) {
    forall i <- code :: !Ends(i)
  }

  /** Runs code without jumps, last instruction outermost. */
  ghost function RunStraight(meaning: Meaning, code: Code, m: Machine): Option<Machine>
    requires Straight(code)
  {
    if code == [] then Some(m)
    else
      match RunStraight(meaning, code[..|code| - 1], m)
      case None => None
      case Some(m') => Step(meaning, code[|code| - 1], m')
  }

  lemma {:induction false} RunStraightAppend(meaning: Meaning, code: Code, more: Code, m: Machine)
    requires Straight(code) && Straight(more)
    ensures Straight(code + more)
    ensures RunStraight(meaning, code + more, m) ==
            match RunStraight(meaning, code, m)
            case None => None
            case Some(m') => RunStraight(meaning, more, m')
  {
    if more == [] {
      assert code + more == code;
    } else {
      var init := more[..|more| - 1];
      RunStraightAppend(meaning, code, init, m);
      assert (code + more)[..|code + more| - 1] == code + init;
    }
  }

  /** Running a block is running its straight part, then its last instruction. */
  lemma {:induction false} RunBlockSplit(meaning: Meaning, code: Code, last: Code, m: Machine)
    requires Straight(code)
    ensures RunBlock(meaning, code + last, m) ==
            match RunStraight(meaning, code, m)
            case None => Trapped
            case Some(m') => RunBlock(meaning, last, m')
  {
    if code == [] {
      assert code + last == last;
    } else {
      var i, rest := code[0], code[1..];
      assert (code + last)[1..] == rest + last;
      assert [i] + rest == code;
      RunStraightAppend(meaning, [i], rest, m);
      assert !Ends(i);
      assert [i][..0] == [];
      assert RunStraight(meaning, [i], m) == Step(meaning, i, m);
      match Step(meaning, i, m)
      case None =>
      case Some(m') => RunBlockSplit(meaning, rest, last, m');
    }
  }
}
