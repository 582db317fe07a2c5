/** Deleting superseded definitions preserves meaning exactly when they change nothing but their register. */
module PruningSemantics {
  import opened Wrappers
  import opened Rudder
  import opened Widths
  import opened RegisterCode
  import opened RegisterAllocator
  import opened LiveRanges
  import opened AllocationSemantics
  import opened DeadDefinitions

  ghost predicate SameAt(needs: seq<Width>, f: File, g: File, u: nat) {
    u < |needs| && Low(needs[u], Get(f, u)) == Low(needs[u], Get(g, u))
  }

  /** What is needed of the registers live before instruction `k` is the same. */
  ghost predicate SameLive(code: Code, needs: seq<Width>, f: File, g: File, k: nat) {
    forall u :: 0 <= u < |needs| && Live(code, u, k) ==> SameAt(needs, f, g, u)
  }

  lemma {:induction false} InputsSame(operands: seq<Operand>, f: File, g: File)
    requires forall o <- operands :: IsRead(o) ==> Low(o.width, Get(f, o.reg)) == Low(o.width, Get(g, o.reg))
    ensures Inputs(operands, f) == Inputs(operands, g)
  {
    if operands != [] {
      assert operands[|operands| - 1] in operands;
      InputsSame(operands[..|operands| - 1], f, g);
    }
  }

  /** An operand decides what is needed of register `u`. */
  ghost predicate DecidedBy(operands: seq<Operand>, needs: seq<Width>, u: nat) {
    u < |needs| && exists o <- operands :: o.reg == u && IsWrite(o) && Decides(o.width, needs[u])
  }

  lemma {:induction false} StoreSame(needs: seq<Width>, f: File, g: File, o: Operand, x: Word, u: nat)
    requires u < |needs| && (SameAt(needs, f, g, u) || (o.reg == u && Decides(o.width, needs[u])))
    ensures SameAt(needs, Store(f, o, x), Store(g, o, x), u)
  {
    if o.reg == u {
      PutSame(o.width, needs[u], x, Get(f, u), Get(g, u));
    }
  }

  lemma {:induction false} OutputsSame(operands: seq<Operand>, outs: seq<Word>, needs: seq<Width>, f: File, g: File,
      u: nat)
    requires u < |needs| && (SameAt(needs, f, g, u) || DecidedBy(operands, needs, u))
    ensures SameAt(needs, Outputs(operands, outs, f), Outputs(operands, outs, g), u)
  {
    if operands != [] {
      var n := |operands| - 1;
      var init, o := operands[..n], operands[n];
      assert operands == init + [o];
      var x := if Writes(init) < |outs| then outs[Writes(init)] else 0;
      if SameAt(needs, f, g, u) || DecidedBy(init, needs, u) {
        OutputsSame(init, outs, needs, f, g, u);
        if IsWrite(o) {
          StoreSame(needs, Outputs(init, outs, f), Outputs(init, outs, g), o, x, u);
        }
      } else {
        assert o.reg == u && IsWrite(o) && Decides(o.width, needs[u]);
        StoreSame(needs, Outputs(init, outs, f), Outputs(init, outs, g), o, x, u);
      }
    }
  }

  /** The operands of instruction `k` read the same, and decide what they start. */
  lemma {:induction false} LeftOperands(code: Code, n: nat, needs: seq<Width>, k: nat, f: File, g: File)
    requires Allocatable(code, n) && |needs| == n && WidthsFit(code, needs) && k < |code|
               && SameLive(code, needs, f, g, k)
    ensures forall o <- code[k].operands :: IsRead(o) ==> Low(o.width, Get(f, o.reg)) == Low(o.width, Get(g, o.reg))
    ensures forall u :: 0 <= u < n && Live(code, u, k + 1) ==>
              SameAt(needs, f, g, u) || DecidedBy(code[k].operands, needs, u)
  {
    assert code[k] in code;
    forall o | o in code[k].operands && IsRead(o)
      ensures Low(o.width, Get(f, o.reg)) == Low(o.width, Get(g, o.reg))
    {
      var j :| 0 <= j < |code[k].operands| && code[k].operands[j] == o;
      OccursHere(code, k, j);
      assert OperandOk(code, k, j) && OperandWidthFits(code, needs, k, j);
      assert Live(code, o.reg, k);
      LowWithin(o.width, needs[o.reg], Get(f, o.reg), Get(g, o.reg));
    }
    forall u | 0 <= u < n && Live(code, u, k + 1)
      ensures SameAt(needs, f, g, u) || DecidedBy(code[k].operands, needs, u)
    {
      if First(code, u) == k {
        var j :| 0 <= j < |code[k].operands| && code[k].operands[j].reg == u;
        assert OperandOk(code, k, j) && OperandWidthFits(code, needs, k, j);
      } else {
        assert Live(code, u, k);
      }
    }
  }

  /** An instruction that is left does the same to both. */
  lemma {:induction false} LeftStep<H>(effect: Effect<H>, code: Code, n: nat, needs: seq<Width>, k: nat, b: State<H>,
      c: State<H>)
    requires Allocatable(code, n) && |needs| == n && WidthsFit(code, needs) && k < |code| && WellShaped(code[k])
    requires b.rest == c.rest && SameLive(code, needs, b.file, c.file, k)
    ensures Inputs(code[k].operands, b.file) == Inputs(code[k].operands, c.file)
    ensures var b', c' := Step(effect, code[k], b), Step(effect, code[k], c);
            b'.rest == c'.rest && SameLive(code, needs, b'.file, c'.file, k + 1)
  {
    var i := code[k];
    LeftOperands(code, n, needs, k, b.file, c.file);
    InputsSame(i.operands, b.file, c.file);
    hide Allocatable, WidthsFit, Live;
    var b', c' := Step(effect, i, b), Step(effect, i, c);
    forall u | 0 <= u < |needs| && Live(code, u, k + 1)
      ensures SameAt(needs, b'.file, c'.file, u)
    {
      if i.op.Mov? {
        MoveSame(i, needs, b.file, c.file, u);
      } else if !i.op.Dead? {
        OutputsSame(i.operands, effect(i.op, Inputs(i.operands, b.file), b.rest).0, needs, b.file, c.file, u);
      }
    }
  }

  lemma {:induction false} MoveSame(i: Instruction, needs: seq<Width>, f: File, g: File, u: nat)
    requires WellShaped(i) && i.op.Mov? && u < |needs|
    requires SameAt(needs, f, g, u) || DecidedBy(i.operands, needs, u)
    requires Low(i.operands[0].width, Get(f, i.operands[0].reg)) == Low(i.operands[0].width, Get(g, i.operands[0].reg))
    ensures var src, dst := i.operands[0], i.operands[1];
            SameAt(needs, Store(f, dst, Get(f, src.reg)), Store(g, dst, Get(g, src.reg)), u)
  {
    var src, dst := i.operands[0], i.operands[1];
    PutLow(dst.width, Get(f, src.reg), Get(g, src.reg), Get(g, dst.reg));
    StoreSame(needs, f, g, dst, Get(f, src.reg), u);
  }

  /** Of two writes to a register that nothing has read, the first is superseded. */
  lemma {:induction false} EarlierSuperseded(code: Code, g: nat, k: nat, v: nat)
    requires g < k < |code| && WritesReg(code[g], v) && WritesReg(code[k], v)
    requires forall j :: 0 <= j <= k ==> !ReadsReg(code[j], v)
    ensures Superseded(code, g, |code|)
    decreases k
  {
    if h :| g < h < k && WritesReg(code[h], v) {
      EarlierSuperseded(code, g, h, v);
    } else {
      PlainWrite(code[k], v);
      assert Supersedes(code, g, k, v);
    }
  }

  /** The range of a register starts after its superseded definitions. */
  lemma {:induction false} BornLater(code: Code, n: nat, k: nat, v: nat)
    requires Prunable(code, n) && k < |code| && Superseded(code, k, |code|) && WritesReg(code[k], v)
    requires OccursIn(Pruned(code), v)
    ensures First(Pruned(code), v) > k
  {
    var g := First(Pruned(code), v);
    LeftAlone(code, g, v);
    WrittenAtBirth(code, n, v);
    var m: nat, u: nat :| m < |code| && Supersedes(code, k, m, u);
    assert SafelyDead(code, k);
    hide Allocatable, SafelyDead, Pruned, WritesReg, ReadsReg;
    OneWritten(code, k, u, v);
    if g < k {
      EarlierSuperseded(code, g, k, v);
    }
  }

  lemma {:induction false} OutputsElsewhere(operands: seq<Operand>, outs: seq<Word>, f: File, u: nat)
    requires forall o <- operands :: IsWrite(o) ==> o.reg != u
    ensures Get(Outputs(operands, outs, f), u) == Get(f, u)
  {
    if operands != [] {
      assert operands[|operands| - 1] in operands;
      OutputsElsewhere(operands[..|operands| - 1], outs, f, u);
    }
  }

  lemma {:induction false} StepElsewhere<H>(effect: Effect<H>, i: Instruction, b: State<H>, u: nat)
    requires WellShaped(i) && !WritesReg(i, u)
    ensures Get(Step(effect, i, b).file, u) == Get(b.file, u)
  {
    if i.op.Mov? {
      assert i.operands[1] in i.operands;
    } else if !i.op.Dead? {
      OutputsElsewhere(i.operands, effect(i.op, Inputs(i.operands, b.file), b.rest).0, b.file, u);
    }
  }

  /** Doing without a superseded instruction changes no live register. */
  lemma {:induction false} DeletedStep<H>(effect: Effect<H>, code: Code, n: nat, needs: seq<Width>, k: nat,
      b: State<H>, g: File)
    requires Prunable(code, n) && k < |code| && Superseded(code, k, |code|) && WellShaped(code[k])
    requires SameLive(Pruned(code), needs, b.file, g, k)
    ensures SameLive(Pruned(code), needs, Step(effect, code[k], b).file, g, k + 1)
  {
    var p := Pruned(code);
    assert p[k] == Instruction(Dead, []);
    hide Prunable, Pruned, Superseded, WritesReg, Step;
    forall u | 0 <= u < |needs| && Live(p, u, k + 1)
      ensures SameAt(needs, Step(effect, code[k], b).file, g, u)
    {
      assert !Occurs(p[k], u);
      assert Live(p, u, k);
      if WritesReg(code[k], u) {
        BornLater(code, n, k, u);
      }
      StepElsewhere(effect, code[k], b, u);
    }
  }

  /** Along the run from `s`, the superseded instructions before `k` change nothing but registers. */
  ghost predicate Silent<H>(effect: Effect<H>, code: Code, s: State<H>, k: nat)
    requires k <= |code| && forall i <- code :: WellShaped(i)
  {
    forall f: nat {:trigger Superseded(code, f, |code|)} :: f < k && Superseded(code, f, |code|) ==>
      code[f] in code && Before(effect, code, s, f + 1).rest == Before(effect, code, s, f).rest
  }

  lemma {:induction false} PrunedShaped(code: Code, n: nat)
    requires Prunable(code, n)
    ensures forall i <- code :: WellShaped(i)
    ensures forall i <- Pruned(code) :: WellShaped(i)
  {}

  /** One instruction, which is left or changes nothing but registers. */
  lemma {:induction false} PrunedStep<H>(
    effect: Effect<H>, code: Code, n: nat, needs: seq<Width>, k: nat, b: State<H>, c: State<H>)
    requires Prunable(code, n) && |needs| == n && WidthsFit(Pruned(code), needs) && k < |code|
    requires WellShaped(code[k]) && WellShaped(Pruned(code)[k])
    requires b.rest == c.rest && SameLive(Pruned(code), needs, b.file, c.file, k)
    requires Superseded(code, k, |code|) ==> Step(effect, code[k], b).rest == b.rest
    ensures var b', c' := Step(effect, code[k], b), Step(effect, Pruned(code)[k], c);
            b'.rest == c'.rest && SameLive(Pruned(code), needs, b'.file, c'.file, k + 1)
  {
    var p := Pruned(code);
    assert p[k] == if Superseded(code, k, |code|) then Instruction(Dead, []) else code[k];
    hide SameLive, WidthsFit, WellShaped, Step, Superseded, Pruned;
    if Superseded(code, k, |code|) {
      DeletedStep(effect, code, n, needs, k, b, c.file);
      DeadStep(effect, c);
    } else {
      LeftStep(effect, p, n, needs, k, b, c);
    }
  }

  lemma {:induction false} SilentSame<H>(effect: Effect<H>, code: Code, n: nat, needs: seq<Width>, s: State<H>, k: nat)
    requires Prunable(code, n) && |needs| == n && WidthsFit(Pruned(code), needs) && k <= |code|
    requires (forall i <- code :: WellShaped(i)) && (forall i <- Pruned(code) :: WellShaped(i))
    requires Silent(effect, code, s, k)
    ensures var b, c := Before(effect, code, s, k), Before(effect, Pruned(code), s, k);
            b.rest == c.rest && SameLive(Pruned(code), needs, b.file, c.file, k)
    decreases k
  {
    hide Prunable, WidthsFit, WellShaped, Step, Superseded, Pruned;
    if k > 0 {
      SilentSame(effect, code, n, needs, s, k - 1);
      assert code[k - 1] in code && Pruned(code)[k - 1] in Pruned(code);
      hide SameLive;
      PrunedStep(effect, code, n, needs, k - 1, Before(effect, code, s, k - 1), Before(effect, Pruned(code), s, k - 1));
    }
  }

  lemma {:induction false} DeadStep<H>(effect: Effect<H>, c: State<H>)
    ensures Step(effect, Instruction(Dead, []), c) == c
  {}

  /** With and without superseded definitions, the state apart from registers is the same at every moment. */
  ghost predicate SameRest<H>(effect: Effect<H>, code: Code, s: State<H>)
    requires (forall i <- code :: WellShaped(i)) && forall i <- Pruned(code) :: WellShaped(i)
  {
    forall k: nat :: k <= |code| ==> Before(effect, code, s, k).rest == Before(effect, Pruned(code), s, k).rest
  }

  /** Without its superseded definitions a program keeps the state apart from registers, at every moment of a
      run, exactly when along that run they change nothing but registers. */
  lemma {:induction false} PruningExactly<H>(effect: Effect<H>, code: Code, n: nat, needs: seq<Width>, s: State<H>)
    requires Prunable(code, n) && |needs| == n && WidthsFit(Pruned(code), needs)
    ensures (forall i <- code :: WellShaped(i)) && forall i <- Pruned(code) :: WellShaped(i)
    ensures SameRest(effect, code, s) <==> Silent(effect, code, s, |code|)
  {
    PrunedShaped(code, n);
    hide Prunable, WidthsFit, WellShaped, SameLive, Silent;
    if Silent(effect, code, s, |code|) {
      forall k: nat | k <= |code|
        ensures Before(effect, code, s, k).rest == Before(effect, Pruned(code), s, k).rest
      {
        SilentUpTo(effect, code, s, k);
        SilentSame(effect, code, n, needs, s, k);
      }
    }
    if SameRest(effect, code, s) {
      SameSilent(effect, code, s);
    }
  }

  lemma {:induction false} SilentUpTo<H>(effect: Effect<H>, code: Code, s: State<H>, k: nat)
    requires k <= |code| && (forall i <- code :: WellShaped(i)) && Silent(effect, code, s, |code|)
    ensures Silent(effect, code, s, k)
  {}

  lemma {:induction false} SameSilent<H>(effect: Effect<H>, code: Code, s: State<H>)
    requires (forall i <- code :: WellShaped(i)) && (forall i <- Pruned(code) :: WellShaped(i))
               && SameRest(effect, code, s)
    ensures Silent(effect, code, s, |code|)
  {
    var p := Pruned(code);
    forall f: nat | f < |code| && Superseded(code, f, |code|)
      ensures code[f] in code && Before(effect, code, s, f + 1).rest == Before(effect, code, s, f).rest
    {
      assert p[f] == Instruction(Dead, []) && p[f] in p;
      hide WellShaped, Step;
      DeadStep(effect, Before(effect, p, s, f));
      assert Before(effect, p, s, f + 1) == Before(effect, p, s, f);
    }
  }

  /** Register allocation preserves meaning, redefinitions included: before every instruction the allocated
      code is in the same machine state apart from registers, and every instruction that is left reads the
      values it read before. */
  lemma {:induction false} RedefinitionsPreserveMeaning<H>(
    effect: Effect<H>, code: Code, classes: seq<RegisterClass>, needs: seq<Width>, code': Code,
    s: State<H>, physical: File, k: nat)
    requires Prunable(code, |classes|) && |needs| == |classes| && WidthsFit(Pruned(code), needs)
    requires Ordered(Pruned(code), classes) && LoadsAlone(Pruned(code), classes)
    requires AllocateRegisters(code, classes) == Some(code') && k <= |code|
    requires (forall i <- code :: WellShaped(i)) && Silent(effect, code, s, k)
    ensures |code'| == |code| && forall i <- code' :: WellShaped(i)
    ensures var b, b' := Before(effect, code, s, k), Before(effect, code', State(physical, s.rest), k);
      && b'.rest == b.rest
      && (k < |code| && !code'[k].op.Dead? ==> Inputs(code'[k].operands, b'.file) == Inputs(code[k].operands, b.file))
  {
    var p := Pruned(code);
    PrunedShaped(code, |classes|);
    AllocatesPruned(code, classes);
    AllocationPreservesMeaning(effect, p, classes, needs, code', s, physical, k);
    SilentSame(effect, code, |classes|, needs, s, k);
    if k < |code| && !code'[k].op.Dead? {
      StillDead(p, classes, code', k);
      assert p[k] == code[k] && p[k] in p;
      hide Ordered, LoadsAlone, WidthsFit, SameLive;
      LeftStep(effect, p, |classes|, needs, k, Before(effect, code, s, k), Before(effect, p, s, k));
    }
  }

  lemma {:induction false} StillDead(code: Code, classes: seq<RegisterClass>, code': Code, k: nat)
    requires Allocatable(code, |classes|) && AllocateRegisters(code, classes) == Some(code') && k < |code| == |code'|
    ensures code[k].op.Dead? ==> code'[k].op.Dead?
  {
    AllocationSucceeds(code, classes);
    var tracks := FinalTracks(code, classes);
    assert CommitOne(code[k], tracks) == Some(code'[k]);
  }
}
