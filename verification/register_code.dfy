/** Straight-line machine code over register numbers, before and after allocation.

    An instruction is known by the registers it uses, defines or updates; what it
    computes is a parameter, as is the rest of the machine state (memory, flags,
    globals), which every instruction may read and change. */
module RegisterCode {
  import opened Rudder
  import opened Widths

  datatype Direction = Use | Def | UseDef

  datatype Operand = Operand(direction: Direction, reg: nat, width: Width)

  predicate IsRead(o: Operand) {
    !o.direction.Def?
  }

  predicate IsWrite(o: Operand) {
    !o.direction.Use?
  }

  /** `Mov` is a move between two registers, `Load` a move from memory. */
  datatype Opcode = Mov | Load(id: nat) | Other(id: nat) | Dead

  datatype Instruction = Instruction(op: Opcode, operands: seq<Operand>)

  type Code = seq<Instruction>

  predicate WellShaped(i: Instruction) {
    && (i.op.Mov? ==> |i.operands| == 2 && i.operands[0].direction.Use? && i.operands[1].direction.Def? &&
                      i.operands[0].width == i.operands[1].width)
    && (i.op.Load? ==> i.operands != [] && i.operands[|i.operands| - 1].direction.Def? &&
                       forall j :: 0 <= j < |i.operands| - 1 ==> i.operands[j].direction.Use?)
    && (i.op.Dead? ==> i.operands == [])
  }

  type File = map<nat, Word>

  function Get(f: File, r: nat): Word {
    if r in f then f[r] else 0
  }

  /** The values an instruction reads, in operand order. */
  function Inputs(operands: seq<Operand>, f: File): seq<Word> {
    if operands == [] then []
    else
      var init := Inputs(operands[..|operands| - 1], f);
      var o := operands[|operands| - 1];
      match o.direction
      case Def => init
      case _ => init + [Low(o.width, Get(f, o.reg))]
  }

  /** Writes the outputs, in operand order; `outs[n]` goes to the n-th written operand. */
  function Outputs(operands: seq<Operand>, outs: seq<Word>, f: File): File {
    if operands == [] then f
    else
      var init := Outputs(operands[..|operands| - 1], outs, f);
      var o := operands[|operands| - 1];
      var n := Writes(operands[..|operands| - 1]);
      match o.direction
      case Use => init
      case _ => Store(init, o, if n < |outs| then outs[n] else 0)
  }

  /** The registers once operand `o` has been written. */
  function Store(f: File, o: Operand, x: Word): File {
    f[o.reg := Put(o.width, x, Get(f, o.reg))]
  }

  function Writes(operands: seq<Operand>): nat {
    if operands == [] then 0
    else Writes(operands[..|operands| - 1]) + if IsWrite(operands[|operands| - 1]) then 1 else 0
  }

  type Effect<!H> = (Opcode, seq<Word>, H) -> (seq<Word>, H)

  datatype State<H> = State(file: File, rest: H)

  function Step<H>(effect: Effect<H>, i: Instruction, s: State<H>): State<H>
    requires WellShaped(i)
  {
    match i.op
    case Dead => s
    case Mov =>
      s.(file := Store(s.file, i.operands[1], Get(s.file, i.operands[0].reg)))
    case op =>
      var (outs, rest) := effect(op, Inputs(i.operands, s.file), s.rest);
      State(Outputs(i.operands, outs, s.file), rest)
  }

  /** The state before instruction `k`. */
  ghost function Before<H>(effect: Effect<H>, code: Code, s: State<H>, k: nat): State<H>
    requires k <= |code| && forall i <- code :: WellShaped(i)
  {
    if k == 0 then s else Step(effect, code[k - 1], Before(effect, code, s, k - 1))
  }
}
