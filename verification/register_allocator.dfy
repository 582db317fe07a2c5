/** The linear-scan register allocator on code without fixed physical registers.

    A forward pass finds where each virtual register is first defined and last used,
    a reverse pass hands out physical registers, and a final pass rewrites the code.
    None stands for a panic of the allocator. */
module RegisterAllocator {
  import opened Wrappers
  import opened RegisterCode

  datatype RegisterClass = General | Xmm

  /** Physical registers by number: 0 to 15 are general, 16 to 23 are XMM. */
  const PHYSICAL_REGISTERS := 24

  /** General registers are RAX, RCX, RDX, RBX, RSI, RDI and R8 to R14: RSP (6), RBP (7) and R15 are
      never handed out.  XMM registers are XMM0 to XMM7. */
  predicate Available(c: RegisterClass, p: nat) {
    match c
    case General => p < 15 && p != 6 && p != 7
    case Xmm => 16 <= p < PHYSICAL_REGISTERS
  }

  function Pool(c: RegisterClass): set<nat> {
    set p: nat | p < PHYSICAL_REGISTERS && Available(c, p)
  }

  lemma {:induction false} PoolSizes()
    ensures |Pool(General)| == 13 && |Pool(Xmm)| == 8
  {
    assert Pool(General) == {0, 1, 2, 3, 4, 5, 8, 9, 10, 11, 12, 13, 14};
    assert Pool(Xmm) == {16, 17, 18, 19, 20, 21, 22, 23};
  }

  /** The register handed out first: RAX or XMM0. */
  function FirstRegister(c: RegisterClass): nat {
    match c
    case General => 0
    case Xmm => 16
  }

  lemma {:induction false} FirstIsFirst(c: RegisterClass)
    ensures FirstDifference(Pool(c), {}, 0) == Some(FirstRegister(c)) && FirstRegister(c) in Pool(c)
  {}

  /** The lowest-numbered register of `pool` at or above `from` that is not in use. */
  function FirstDifference(pool: set<nat>, used: set<nat>, from: nat): (r: Option<nat>)
    ensures r.Some? ==> from <= r.value < PHYSICAL_REGISTERS && r.value in pool && r.value !in used
    ensures r.Some? ==> forall p :: from <= p < r.value && p in pool ==> p in used
    ensures r.None? ==> forall p :: from <= p < PHYSICAL_REGISTERS && p in pool ==> p in used
    decreases PHYSICAL_REGISTERS - from
  {
    if from >= PHYSICAL_REGISTERS then None
    else if from in pool && from !in used then Some(from)
    else FirstDifference(pool, used, from + 1)
  }

  datatype Track = Track(firstDef: Option<nat>, lastUse: Option<nat>, phys: Option<nat>)

  datatype Ranges = Ranges(code: Code, tracks: seq<Track>)

  ghost predicate InRange(i: Instruction, n: nat) {
    forall o <- i.operands :: o.reg < n
  }

  ghost predicate RangesOk(r: Ranges, length: nat, n: nat) {
    && |r.code| == length && |r.tracks| == n
    && (forall t <- r.tracks :: t.firstDef.Some? ==> t.firstDef.value < length)
    && (forall i <- r.code :: InRange(i, n))
  }

  /** One written operand of instruction `k`.  A plain redefinition before any use kills the
      instruction of the earlier definition. */
  function DefStep(r: Ranges, k: nat, o: Operand): (r': Ranges)
    requires RangesOk(r, |r.code|, |r.tracks|) && k < |r.code| && o.reg < |r.tracks|
    ensures RangesOk(r', |r.code|, |r.tracks|)
  {
    var t := r.tracks[o.reg];
    if !IsWrite(o) then r
    else if t.firstDef.None? then r.(tracks := r.tracks[o.reg := t.(firstDef := Some(k))])
    else if t.lastUse.None? && o.direction.Def? then
      assert t in r.tracks;
      Ranges(r.code[t.firstDef.value := Instruction(Dead, [])], r.tracks[o.reg := t.(firstDef := Some(k))])
    else r
  }

  function DefSteps(r: Ranges, k: nat, operands: seq<Operand>): (r': Ranges)
    requires RangesOk(r, |r.code|, |r.tracks|) && k < |r.code| && forall o <- operands :: o.reg < |r.tracks|
    ensures RangesOk(r', |r.code|, |r.tracks|)
  {
    if operands == [] then r
    else DefStep(DefSteps(r, k, operands[..|operands| - 1]), k, operands[|operands| - 1])
  }

  function UseSteps(tracks: seq<Track>, k: nat, operands: seq<Operand>): (tracks': seq<Track>)
    requires forall o <- operands :: o.reg < |tracks|
    ensures |tracks'| == |tracks|
    ensures forall v :: 0 <= v < |tracks| ==>
      tracks'[v] == if exists o <- operands :: o.reg == v && IsRead(o) then tracks[v].(lastUse := Some(k))
          else tracks[v]
  {
    if operands == [] then tracks
    else
      var init := UseSteps(tracks, k, operands[..|operands| - 1]);
      var o := operands[|operands| - 1];
      assert operands == operands[..|operands| - 1] + [o];
      if IsRead(o) then init[o.reg := init[o.reg].(lastUse := Some(k))] else init
  }

  lemma {:induction false} UseStepsOk(r: Ranges, k: nat, operands: seq<Operand>)
    requires RangesOk(r, |r.code|, |r.tracks|) && forall o <- operands :: o.reg < |r.tracks|
    ensures RangesOk(r.(tracks := UseSteps(r.tracks, k, operands)), |r.code|, |r.tracks|)
  {
    var tracks := UseSteps(r.tracks, k, operands);
    forall t | t in tracks ensures t.firstDef.Some? ==> t.firstDef.value < |r.code| {
      var v :| 0 <= v < |tracks| && tracks[v] == t;
      assert r.tracks[v] in r.tracks;
    }
  }

  /** The live ranges after the first `k` instructions. */
  function Scan(code: Code, n: nat, k: nat): (r: Ranges)
    requires k <= |code| && forall i <- code :: InRange(i, n)
    ensures RangesOk(r, |code|, n)
  {
    if k == 0 then Ranges(code, seq(n, _ => Track(None, None, None)))
    else
      var r := Scan(code, n, k - 1);
      var operands := r.code[k - 1].operands;
      assert r.code[k - 1] in r.code;
      var r' := DefSteps(r, k - 1, operands);
      UseStepsOk(r', k - 1, operands);
      r'.(tracks := UseSteps(r'.tracks, k - 1, operands))
  }

  lemma {:induction false} ScanStep(code: Code, n: nat, k: nat, r: Ranges)
    requires k < |code| && (forall i <- code :: InRange(i, n)) && r == Scan(code, n, k) && InRange(r.code[k], n)
    ensures var r' := DefSteps(r, k, r.code[k].operands);
            Scan(code, n, k + 1) == r'.(tracks := UseSteps(r'.tracks, k, r.code[k].operands))
  {
    hide DefSteps, UseSteps, RangesOk;
  }

  /** The registers handed out so far and those live before the instructions scanned so far. */
  datatype Alloc = Alloc(tracks: seq<Track>, live: set<nat>)

  /** Ends the ranges that instruction `k` starts, from operand `j` on; true when the instruction
      defines a register nobody uses, and is skipped. */
  function EndRanges(classes: seq<RegisterClass>, i: Instruction, k: nat, j: nat, a: Alloc): (r: Option<(Alloc, bool)>)
    requires |a.tracks| == |classes| && InRange(i, |classes|) && j <= |i.operands|
    ensures r.Some? ==> |r.value.0.tracks| == |classes|
    decreases |i.operands| - j
  {
    if j == |i.operands| then Some((a, false))
    else
      var o := i.operands[j];
      assert o in i.operands;
      var t := a.tracks[o.reg];
      if !IsWrite(o) || t.firstDef != Some(k) then EndRanges(classes, i, k, j + 1, a)
      else if t.lastUse.None? then
        if i.op.Load? then
          match FirstDifference(Pool(classes[o.reg]), {}, 0)
          case None => None
          case Some(p) =>
            if t.phys.Some? then None
            else EndRanges(classes, i, k, j + 1, a.(tracks := a.tracks[o.reg := t.(phys := Some(p))]))
        else Some((a, true))
      else if t.phys.None? then None
      else EndRanges(classes, i, k, j + 1, a.(live := a.live - {t.phys.value}))
  }

  /** Hands out a register to every operand whose last use is instruction `k`, from operand `j` on. */
  function StartRanges(classes: seq<RegisterClass>, i: Instruction, k: nat, j: nat, a: Alloc): (r: Option<Alloc>)
    requires |a.tracks| == |classes| && InRange(i, |classes|) && j <= |i.operands|
    ensures r.Some? ==> |r.value.tracks| == |classes|
    decreases |i.operands| - j
  {
    if j == |i.operands| then Some(a)
    else
      var o := i.operands[j];
      assert o in i.operands;
      var t := a.tracks[o.reg];
      if !IsRead(o) || t.lastUse != Some(k) || t.phys.Some? then StartRanges(classes, i, k, j + 1, a)
      else
        match FirstDifference(Pool(classes[o.reg]), a.live, 0)
        case None => None
        case Some(p) =>
          StartRanges(classes, i, k, j + 1, Alloc(a.tracks[o.reg := t.(phys := Some(p))], a.live + {p}))
  }

  /** The reverse scan of instructions `k - 1` down to 0. */
  function Allocate(classes: seq<RegisterClass>, code: Code, k: nat, a: Alloc): (r: Option<Alloc>)
    requires |a.tracks| == |classes| && k <= |code| && forall i <- code :: InRange(i, |classes|)
    ensures r.Some? ==> |r.value.tracks| == |classes|
    decreases k
  {
    if k == 0 then Some(a)
    else
      assert code[k - 1] in code;
      match EndRanges(classes, code[k - 1], k - 1, 0, a)
      case None => None
      case Some((a', skip)) =>
        if skip then Allocate(classes, code, k - 1, a')
        else
          match StartRanges(classes, code[k - 1], k - 1, 0, a')
          case None => None
          case Some(a'') => Allocate(classes, code, k - 1, a'')
  }

  predicate Assigned(operands: seq<Operand>, tracks: seq<Track>) {
    forall o <- operands :: o.reg < |tracks| && tracks[o.reg].phys.Some?
  }

  function Rename(operands: seq<Operand>, tracks: seq<Track>): (r: seq<Operand>)
    requires Assigned(operands, tracks)
    ensures |r| == |operands|
  {
    seq(|operands|, j requires 0 <= j < |operands| =>
      assert operands[j] in operands;
      operands[j].(reg := tracks[operands[j].reg].phys.value))
  }

  /** Rewrites one instruction; a move of a register to itself disappears, unless it is a 32-bit move. */
  function CommitOne(i: Instruction, tracks: seq<Track>): Option<Instruction>
    requires WellShaped(i)
  {
    if i.op.Dead? then Some(i)
    else if !Assigned(i.operands, tracks) then None
    else
      var operands := Rename(i.operands, tracks);
      if i.op.Mov? && operands[0].reg == operands[1].reg && !operands[0].width.W32?
      then Some(Instruction(Dead, []))
      else Some(Instruction(i.op, operands))
  }

  function Commit(code: Code, tracks: seq<Track>): (r: Option<Code>)
    requires forall i <- code :: WellShaped(i)
    ensures r.Some? ==> |r.value| == |code|
    ensures r.Some? ==> forall k :: 0 <= k < |code| ==> CommitOne(code[k], tracks) == Some(r.value[k])
    ensures r.None? ==> exists i <- code :: CommitOne(i, tracks).None?
  {
    if code == [] then Some([])
    else
      match Commit(code[..|code| - 1], tracks)
      case None => None
      case Some(init) =>
        match CommitOne(code[|code| - 1], tracks)
        case None => None
        case Some(i) => Some(init + [i])
  }

  lemma {:induction false} ScanWellShaped(code: Code, n: nat, k: nat)
    requires k <= |code| && forall i <- code :: InRange(i, n) && WellShaped(i)
    ensures forall i <- Scan(code, n, k).code :: WellShaped(i)
  {
    if k != 0 {
      ScanWellShaped(code, n, k - 1);
      var r := Scan(code, n, k - 1);
      assert r.code[k - 1] in r.code;
      DefStepsWellShaped(r, k - 1, r.code[k - 1].operands);
    }
  }

  lemma {:induction false} DefStepsWellShaped(r: Ranges, k: nat, operands: seq<Operand>)
    requires RangesOk(r, |r.code|, |r.tracks|) && k < |r.code| && forall o <- operands :: o.reg < |r.tracks|
    requires forall i <- r.code :: WellShaped(i)
    ensures forall i <- DefSteps(r, k, operands).code :: WellShaped(i)
  {
    if operands != [] {
      DefStepsWellShaped(r, k, operands[..|operands| - 1]);
    }
  }

  /** The whole allocator. */
  function AllocateRegisters(code: Code, classes: seq<RegisterClass>): Option<Code>
    requires forall i <- code :: InRange(i, |classes|) && WellShaped(i)
  {
    var r := Scan(code, |classes|, |code|);
    ScanWellShaped(code, |classes|, |code|);
    match Allocate(classes, r.code, |r.code|, Alloc(r.tracks, {}))
    case None => None
    case Some(a) => Commit(r.code, a.tracks)
  }
}
