/** Which machine registers allocated code uses. */
module HandedRegisters {
  import opened Wrappers
  import opened RegisterCode
  import opened RegisterAllocator

  /** General registers are RAX, RCX, RDX, RBX, RSI, RDI (0 to 5) and R8 to R14 (8 to 14), and never RSP (6),
      RBP (7) or R15 (15); vector registers are XMM0 to XMM7 (16 to 23). */
  predicate Usable(c: RegisterClass, p: nat) {
    match c
    case General => p <= 5 || 8 <= p <= 14
    case Xmm => 16 <= p <= 23
  }

  ghost predicate AllUsable(classes: seq<RegisterClass>, tracks: seq<Track>) {
    |tracks| == |classes| &&
    forall v :: 0 <= v < |tracks| && tracks[v].phys.Some? ==> Usable(classes[v], tracks[v].phys.value)
  }

  lemma {:induction false} PoolUsable(c: RegisterClass, p: nat)
    requires p in Pool(c)
    ensures Usable(c, p)
  {}

  lemma {:induction false} EndRangesUsable(classes: seq<RegisterClass>, i: Instruction, k: nat, j: nat, a: Alloc)
    requires AllUsable(classes, a.tracks) && InRange(i, |classes|) && j <= |i.operands|
    ensures match EndRanges(classes, i, k, j, a)
            case Some((a', _)) => AllUsable(classes, a'.tracks)
            case None => true
    decreases |i.operands| - j
  {
    hide Pool, Usable;
    if j < |i.operands| {
      var o := i.operands[j];
      assert o in i.operands;
      var t := a.tracks[o.reg];
      if !IsWrite(o) || t.firstDef != Some(k) {
        EndRangesUsable(classes, i, k, j + 1, a);
      } else if t.lastUse.None? {
        match FirstDifference(Pool(classes[o.reg]), {}, 0)
        case None =>
        case Some(p) =>
          PoolUsable(classes[o.reg], p);
          EndRangesUsable(classes, i, k, j + 1, a.(tracks := a.tracks[o.reg := t.(phys := Some(p))]));
      } else if t.phys.Some? {
        EndRangesUsable(classes, i, k, j + 1, a.(live := a.live - {t.phys.value}));
      }
    }
  }

  lemma {:induction false} StartRangesUsable(classes: seq<RegisterClass>, i: Instruction, k: nat, j: nat, a: Alloc)
    requires AllUsable(classes, a.tracks) && InRange(i, |classes|) && j <= |i.operands|
    ensures match StartRanges(classes, i, k, j, a)
            case Some(a') => AllUsable(classes, a'.tracks)
            case None => true
    decreases |i.operands| - j
  {
    hide Pool, Usable;
    if j < |i.operands| {
      var o := i.operands[j];
      assert o in i.operands;
      var t := a.tracks[o.reg];
      if !IsRead(o) || t.lastUse != Some(k) || t.phys.Some? {
        StartRangesUsable(classes, i, k, j + 1, a);
      } else {
        match FirstDifference(Pool(classes[o.reg]), a.live, 0)
        case None =>
        case Some(p) =>
          PoolUsable(classes[o.reg], p);
          StartRangesUsable(classes, i, k, j + 1, Alloc(a.tracks[o.reg := t.(phys := Some(p))], a.live + {p}));
      }
    }
  }

  lemma {:induction false} AllocateUsable(classes: seq<RegisterClass>, code: Code, k: nat, a: Alloc)
    requires AllUsable(classes, a.tracks) && k <= |code| && forall i <- code :: InRange(i, |classes|)
    ensures match Allocate(classes, code, k, a)
            case Some(a') => AllUsable(classes, a'.tracks)
            case None => true
    decreases k
  {
    hide EndRanges, StartRanges;
    if k > 0 {
      var i := code[k - 1];
      assert i in code;
      EndRangesUsable(classes, i, k - 1, 0, a);
      match EndRanges(classes, i, k - 1, 0, a)
      case None =>
      case Some((a', skip)) =>
        if skip {
          AllocateUsable(classes, code, k - 1, a');
        } else {
          StartRangesUsable(classes, i, k - 1, 0, a');
          match StartRanges(classes, i, k - 1, 0, a')
          case None =>
          case Some(a'') => AllocateUsable(classes, code, k - 1, a'');
        }
    }
  }

  /** The forward pass hands nothing out and leaves instructions alone or deletes them. */
  ghost predicate OnlyDeletes(code: Code, r: Ranges) {
    && |r.code| == |code| && (forall k :: 0 <= k < |code| ==>
         r.code[k] == code[k] || r.code[k] == Instruction(Dead, []))
    && forall t <- r.tracks :: t.phys.None?
  }

  lemma {:induction false} DefStepsDelete(code: Code, r: Ranges, k: nat, operands: seq<Operand>)
    requires RangesOk(r, |r.code|, |r.tracks|) && k < |r.code| && (forall o <- operands :: o.reg < |r.tracks|)
    requires OnlyDeletes(code, r)
    ensures OnlyDeletes(code, DefSteps(r, k, operands))
  {
    if operands != [] {
      var o, init := operands[|operands| - 1], operands[..|operands| - 1];
      DefStepsDelete(code, r, k, init);
      assert o in operands;
      hide DefSteps;
      assert DefSteps(r, k, init).tracks[o.reg] in DefSteps(r, k, init).tracks;
    }
  }

  lemma {:induction false} UseStepsUnhanded(tracks: seq<Track>, k: nat, operands: seq<Operand>)
    requires (forall o <- operands :: o.reg < |tracks|) && forall t <- tracks :: t.phys.None?
    ensures forall t <- UseSteps(tracks, k, operands) :: t.phys.None?
  {
    forall t | t in UseSteps(tracks, k, operands) ensures t.phys.None? {
      var v :| 0 <= v < |tracks| && UseSteps(tracks, k, operands)[v] == t;
      assert tracks[v] in tracks;
    }
  }

  lemma {:induction false} ScanStart(code: Code, n: nat)
    requires forall i <- code :: InRange(i, n)
    ensures OnlyDeletes(code, Scan(code, n, 0))
  {}

  lemma {:induction false} StepDeletes(code: Code, r: Ranges, k: nat)
    requires RangesOk(r, |r.code|, |r.tracks|) && k < |r.code| && OnlyDeletes(code, r)
    requires InRange(r.code[k], |r.tracks|)
    ensures var r' := DefSteps(r, k, r.code[k].operands);
            OnlyDeletes(code, r'.(tracks := UseSteps(r'.tracks, k, r.code[k].operands)))
  {
    DefStepsDelete(code, r, k, r.code[k].operands);
    UseStepsUnhanded(DefSteps(r, k, r.code[k].operands).tracks, k, r.code[k].operands);
    hide DefSteps, UseSteps;
  }

  lemma {:induction false} ScanDeletes(code: Code, n: nat, k: nat)
    requires k <= |code| && forall i <- code :: InRange(i, n)
    ensures OnlyDeletes(code, Scan(code, n, k))
  {
    hide Scan, OnlyDeletes, InRange, DefSteps, UseSteps;
    if k == 0 {
      ScanStart(code, n);
    } else {
      ScanDeletes(code, n, k - 1);
      var r := Scan(code, n, k - 1);
      assert r.code[k - 1] in r.code;
      StepDeletes(code, r, k - 1);
      ScanStep(code, n, k - 1, r);
    }
  }

  /** Each instruction of the allocated code is what rewriting makes of an instruction left by the forward pass. */
  lemma {:induction false} Committed(code: Code, classes: seq<RegisterClass>, code': Code, k: nat)
      returns (tracks: seq<Track>)
    requires forall i <- code :: InRange(i, |classes|) && WellShaped(i)
    requires AllocateRegisters(code, classes) == Some(code') && k < |code'|
    ensures |code'| == |code| && AllUsable(classes, tracks)
    ensures var i := Scan(code, |classes|, |code|).code[k];
            && WellShaped(i) && CommitOne(i, tracks) == Some(code'[k]) && (i == code[k] || i == Instruction(Dead, []))
  {
    var r := Scan(code, |classes|, |code|);
    ScanDeletes(code, |classes|, |code|);
    ScanWellShaped(code, |classes|, |code|);
    assert AllUsable(classes, r.tracks) by {
      forall v | 0 <= v < |r.tracks| ensures r.tracks[v].phys.None? {
        assert r.tracks[v] in r.tracks;
      }
    }
    hide Scan, Allocate, CommitOne, WellShaped, AllUsable;
    AllocateUsable(classes, r.code, |r.code|, Alloc(r.tracks, {}));
    tracks := Allocate(classes, r.code, |r.code|, Alloc(r.tracks, {})).value.tracks;
    assert r.code[k] in r.code;
  }

  /** Whatever the code, an instruction of the allocated code is deleted or is the instruction it was with every
      virtual register replaced by a usable register of its class. */
  lemma {:induction false} HandsOutUsable(code: Code, classes: seq<RegisterClass>, code': Code, k: nat, j: nat)
    requires forall i <- code :: InRange(i, |classes|) && WellShaped(i)
    requires AllocateRegisters(code, classes) == Some(code') && k < |code'| && j < |code'[k].operands|
    ensures |code'| == |code| && code'[k].op == code[k].op && |code'[k].operands| == |code[k].operands|
    ensures var o, o' := code[k].operands[j], code'[k].operands[j];
            && o'.direction == o.direction && o'.width == o.width && o.reg < |classes|
            && match classes[o.reg]
               case General => o'.reg in {0, 1, 2, 3, 4, 5, 8, 9, 10, 11, 12, 13, 14}
               case Xmm => o'.reg in {16, 17, 18, 19, 20, 21, 22, 23}
  {
    var tracks := Committed(code, classes, code', k);
    hide AllocateRegisters, Scan;
    assert code[k] in code && code[k].operands[j] in code[k].operands;
  }

  /** No move of a register to itself is left but 32-bit ones, and besides what the forward pass deletes only
      moves of other widths go. */
  lemma {:induction false} SelfMovesGo(code: Code, classes: seq<RegisterClass>, code': Code, k: nat)
    requires forall i <- code :: InRange(i, |classes|) && WellShaped(i)
    requires AllocateRegisters(code, classes) == Some(code') && k < |code'|
    ensures |code'| == |code| && (code'[k].op.Mov? ==> |code'[k].operands| == 2)
    ensures code'[k].op.Mov? && code'[k].operands[0].reg == code'[k].operands[1].reg ==> code'[k].operands[0].width.W32?
    ensures code'[k].op.Dead? && !Scan(code, |classes|, |code|).code[k].op.Dead? ==>
              code[k].op.Mov? && |code[k].operands| == 2 && !code[k].operands[0].width.W32?
  {
    var tracks := Committed(code, classes, code', k);
    hide AllocateRegisters, Scan;
  }
}
