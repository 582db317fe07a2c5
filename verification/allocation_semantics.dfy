/** Register allocation preserves meaning. */
module AllocationSemantics {
  import opened Wrappers
  import opened Rudder
  import opened Widths
  import opened RegisterCode
  import opened RegisterAllocator
  import opened LiveRanges
  import opened AllocationInvariant

  /** Operand `j` of instruction `k` starts a range, and a later operand writes a register whose range
      ends there. */
  ghost predicate Meets(ranges: seq<Track>, i: Instruction, k: nat, j: nat, j': nat)
    requires j < |i.operands| && j' < |i.operands|
  {
    var w, v := i.operands[j].reg, i.operands[j'].reg;
    && j < j' && w < |ranges| && v < |ranges| && IsWrite(i.operands[j'])
    && ranges[w].firstDef == Some(k) && ranges[v].lastUse == Some(k)
  }

  /** Where operands of instruction `k` meet, they have different registers. */
  ghost predicate NoClash(tracks: seq<Track>, i: Instruction, k: nat) {
    forall j, j' :: 0 <= j < |i.operands| && 0 <= j' < |i.operands| && Meets(tracks, i, k, j, j') ==>
      tracks[i.operands[j].reg].phys != tracks[i.operands[j'].reg].phys
  }

  ghost predicate Unclashed(code: Code, tracks: seq<Track>) {
    forall k :: 0 <= k < |code| ==> NoClash(tracks, code[k], k)
  }

  /** A register nobody reads does not have the place of one that is live after its definition. */
  ghost predicate Unspoilt(tracks: seq<Track>) {
    forall v, w :: 0 <= v < |tracks| && 0 <= w < |tracks| && Idle(tracks[v])
                   && Spans(tracks[w], tracks[v].firstDef.value + 1) ==>
      tracks[v].phys != tracks[w].phys
  }

  /** `ranges` are the first and last occurrences of the registers of `code`. */
  ghost predicate AreRanges(ranges: seq<Track>, code: Code, n: nat) {
    && |ranges| == n
    && forall v :: 0 <= v < n ==>
         ranges[v] == Track(if OccursIn(code, v) then Some(First(code, v)) else None, LastUse(code, v), None)
  }

  lemma {:induction false} RangesFitCode(code: Code, n: nat, ranges: seq<Track>)
    requires Allocatable(code, n) && OnlyLoadsUnread(code) && AreRanges(ranges, code, n)
    ensures RangesFit(ranges, code)
  {
    forall k | 0 <= k < |code| ensures InstructionFits(ranges, code[k], k) {
      ScanFitsOne(code, n, ranges, k);
    }
  }

  lemma {:induction false} ScanFits(code: Code, n: nat)
    requires Allocatable(code, n)
    ensures Scan(code, n, |code|).code == code
    ensures AreRanges(Scan(code, n, |code|).tracks, code, n)
  {
    hide Allocatable;
    ScanFindsRanges(code, n);
  }

  lemma {:induction false} ScanFitsOne(code: Code, n: nat, ranges: seq<Track>, k: nat)
    requires Allocatable(code, n) && OnlyLoadsUnread(code) && k < |code| && AreRanges(ranges, code, n)
    ensures InstructionFits(ranges, code[k], k)
  {
    var i := code[k];
    assert i in code;
    forall j | 0 <= j < |i.operands| ensures OperandFits(ranges, i, k, j) {
      OccursHere(code, k, j);
      assert OperandOk(code, k, j);
      assert i.operands[j] in i.operands;
    }
    forall v | 0 <= v < |ranges| && ranges[v].firstDef == Some(k)
      ensures exists j :: 0 <= j < |i.operands| && i.operands[j].reg == v
    {
      assert Occurs(i, v);
    }
    forall v | 0 <= v < |ranges| && ranges[v].lastUse == Some(k)
      ensures exists j :: 0 <= j < |i.operands| && i.operands[j].reg == v && IsRead(i.operands[j])
    {
      assert ReadsReg(i, v);
    }
  }

  /** Every live virtual register has its value in its physical register, as far as it is needed. */
  ghost predicate Agree(tracks: seq<Track>, needs: seq<Width>, virtual: File, physical: File, k: nat) {
    |needs| == |tracks| && forall v :: 0 <= v < |tracks| && Spans(tracks[v], k) ==>
      tracks[v].phys.Some? && Low(needs[v], Get(virtual, v)) == Low(needs[v], Get(physical, tracks[v].phys.value))
  }

  /** What instruction `k` reads of a register is needed of it, and where it starts a range it decides all
      that is needed. */
  ghost predicate WidthsFitAt(tracks: seq<Track>, needs: seq<Width>, i: Instruction, k: nat) {
    forall j :: 0 <= j < |i.operands| && i.operands[j].reg < |needs| == |tracks| ==>
      && (IsRead(i.operands[j]) ==> Within(i.operands[j].width, needs[i.operands[j].reg]))
      && (tracks[i.operands[j].reg].firstDef == Some(k) ==> Decides(i.operands[j].width, needs[i.operands[j].reg]))
  }

  lemma {:induction false} InputsAgree(tracks: seq<Track>, operands: seq<Operand>, virtual: File, physical: File)
    requires Assigned(operands, tracks)
    requires forall o <- operands :: IsRead(o) ==>
               Low(o.width, Get(virtual, o.reg)) == Low(o.width, Get(physical, tracks[o.reg].phys.value))
    ensures Inputs(Rename(operands, tracks), physical) == Inputs(operands, virtual)
  {
    if operands != [] {
      var n := |operands| - 1;
      InputsAgree(tracks, operands[..n], virtual, physical);
      assert Rename(operands, tracks)[..n] == Rename(operands[..n], tracks);
      assert operands[n] in operands;
    }
  }

  lemma {:induction false} WritesRename(tracks: seq<Track>, operands: seq<Operand>)
    requires Assigned(operands, tracks)
    ensures Writes(Rename(operands, tracks)) == Writes(operands)
  {
    if operands != [] {
      var n := |operands| - 1;
      WritesRename(tracks, operands[..n]);
      assert Rename(operands, tracks)[..n] == Rename(operands[..n], tracks);
    }
  }

  /** What the allocator sees to for instruction `k`. */
  ghost predicate Placed(tracks: seq<Track>, i: Instruction, k: nat) {
    && Assigned(i.operands, tracks)
    && InstructionFits(tracks, i, k)
    && Apart(tracks, k)
    && (forall v :: 0 <= v < |tracks| && tracks[v].firstDef.Some? && tracks[v].lastUse.Some? ==>
          tracks[v].firstDef.value < tracks[v].lastUse.value)
  }

  /** What the registers must satisfy for instruction `k` to be allocated right. */
  ghost predicate PlacedWell(tracks: seq<Track>, needs: seq<Width>, i: Instruction, k: nat) {
    && WellShaped(i) && Placed(tracks, i, k) && NoClash(tracks, i, k) && Unspoilt(tracks)
    && |needs| == |tracks| && WidthsFitAt(tracks, needs, i, k)
  }

  /** Operand `j`, if it is written, shares no place with another register that is live afterwards and
      that no operand from `j` on defines. */
  lemma {:induction false} WriteApart(tracks: seq<Track>, needs: seq<Width>, i: Instruction, k: nat, j: nat, w: nat)
    requires PlacedWell(tracks, needs, i, k) && j < |i.operands| && IsWrite(i.operands[j])
    requires w < |tracks| && w != i.operands[j].reg && Spans(tracks[w], k + 1) && Settled(tracks[w], i, k, j, w)
    ensures i.operands[j].reg < |tracks| && tracks[w].phys != tracks[i.operands[j].reg].phys
  {
    var v := i.operands[j].reg;
    assert OperandFits(tracks, i, k, j);
    if Idle(tracks[v]) {
      assert tracks[v].firstDef == Some(k);
    } else if Spans(tracks[v], k + 1) {
      assert Spans(tracks[w], k + 1);
    } else if tracks[w].firstDef != Some(k) {
      assert Spans(tracks[v], k) && Spans(tracks[w], k);
    } else {
      var j0 :| 0 <= j0 < j && i.operands[j0].reg == w;
      assert Meets(tracks, i, k, j0, j);
    }
  }

  /** The registers live after instruction `k` agree, but for those its operands from `j` on define. */
  ghost predicate AgreeAfter(tracks: seq<Track>, needs: seq<Width>, i: Instruction, k: nat, j: nat, virtual: File,
      physical: File)
    requires j <= |i.operands|
  {
    && |needs| == |tracks|
    && forall w :: 0 <= w < |tracks| && Spans(tracks[w], k + 1) && Settled(tracks[w], i, k, j, w) ==>
         tracks[w].phys.Some? && Low(needs[w], Get(virtual, w)) == Low(needs[w], Get(physical, tracks[w].phys.value))
  }

  ghost predicate Settled(t: Track, i: Instruction, k: nat, j: nat, w: nat)
    requires j <= |i.operands|
  {
    t.firstDef != Some(k) || exists j' :: 0 <= j' < j && i.operands[j'].reg == w
  }

  lemma {:induction false} WriteOne(tracks: seq<Track>, needs: seq<Width>, i: Instruction, k: nat, j: nat, x: Word,
      virtual: File, physical: File)
    requires PlacedWell(tracks, needs, i, k) && j < |i.operands| && i.operands[j].reg < |tracks|
    requires tracks[i.operands[j].reg].phys.Some?
    requires AgreeAfter(tracks, needs, i, k, j, virtual, physical)
    ensures var o := i.operands[j];
            if IsWrite(o) then
              AgreeAfter(tracks, needs, i, k, j + 1, Store(virtual, o, x),
                         Store(physical, o.(reg := tracks[o.reg].phys.value), x))
            else AgreeAfter(tracks, needs, i, k, j + 1, virtual, physical)
  {
    var o := i.operands[j];
    var p := tracks[o.reg].phys.value;
    var virtual' := if IsWrite(o) then Store(virtual, o, x) else virtual;
    var physical' := if IsWrite(o) then Store(physical, o.(reg := p), x) else physical;
    assert OperandFits(tracks, i, k, j);
    forall w | 0 <= w < |tracks| && Spans(tracks[w], k + 1) && Settled(tracks[w], i, k, j + 1, w)
      ensures tracks[w].phys.Some?
      ensures Low(needs[w], Get(virtual', w)) == Low(needs[w], Get(physical', tracks[w].phys.value))
    {
      if w != o.reg {
        assert Settled(tracks[w], i, k, j, w);
        if IsWrite(o) {
          WriteApart(tracks, needs, i, k, j, w);
        }
      } else {
        assert tracks[w].firstDef != Some(k) ==> Settled(tracks[w], i, k, j, w);
        if IsWrite(o) {
          PutSame(o.width, needs[w], x, Get(virtual, w), Get(physical, p));
        }
      }
    }
  }

  lemma {:induction false} NothingWritten(tracks: seq<Track>, needs: seq<Width>, i: Instruction, k: nat,
      virtual: File, physical: File)
    requires Agree(tracks, needs, virtual, physical, k)
    ensures AgreeAfter(tracks, needs, i, k, 0, virtual, physical)
  {
    forall w | 0 <= w < |tracks| && Spans(tracks[w], k + 1) && Settled(tracks[w], i, k, 0, w)
      ensures tracks[w].phys.Some? && Low(needs[w], Get(virtual, w)) ==
                Low(needs[w], Get(physical, tracks[w].phys.value))
    {
      assert Spans(tracks[w], k);
    }
  }

  lemma {:induction false} AssignedPrefix(tracks: seq<Track>, operands: seq<Operand>, j: nat)
    requires Assigned(operands, tracks) && j <= |operands|
    ensures Assigned(operands[..j], tracks)
  {}

  /** After the first `j` operands have been written. */
  lemma {:induction false} OutputsAgree(tracks: seq<Track>, needs: seq<Width>, i: Instruction, k: nat, j: nat,
      outs: seq<Word>, virtual: File, physical: File)
    requires PlacedWell(tracks, needs, i, k) && j <= |i.operands|
    requires Agree(tracks, needs, virtual, physical, k)
    ensures Assigned(i.operands[..j], tracks)
    ensures AgreeAfter(tracks, needs, i, k, j, Outputs(i.operands[..j], outs, virtual),
                       Outputs(Rename(i.operands[..j], tracks), outs, physical))
  {
    hide InstructionFits, Apart, NoClash, Unspoilt, Agree, AgreeAfter;
    AssignedPrefix(tracks, i.operands, j);
    var operands := i.operands[..j];
    if j == 0 {
      NothingWritten(tracks, needs, i, k, virtual, physical);
    } else {
      var o := i.operands[j - 1];
      var init := i.operands[..j - 1];
      assert operands[..j - 1] == init;
      assert o in i.operands;
      OutputsAgree(tracks, needs, i, k, j - 1, outs, virtual, physical);
      assert Rename(operands, tracks)[..j - 1] == Rename(init, tracks);
      WritesRename(tracks, init);
      var n := Writes(init);
      WriteOne(tracks, needs, i, k, j - 1, if n < |outs| then outs[n] else 0,
               Outputs(init, outs, virtual), Outputs(Rename(init, tracks), outs, physical));
    }
  }

  /** One instruction, before and after allocation, reads the same values and keeps agreement. */
  lemma {:induction false} StepAgrees<H>(effect: Effect<H>, tracks: seq<Track>, needs: seq<Width>, i: Instruction,
      i': Instruction, k: nat, s: State<H>, physical: File)
    requires WellShaped(i) && CommitOne(i, tracks) == Some(i')
    requires i.op.Dead? || PlacedWell(tracks, needs, i, k)
    requires i.op.Dead? ==> forall v :: 0 <= v < |tracks| ==> tracks[v].firstDef != Some(k)
    requires Agree(tracks, needs, s.file, physical, k)
    ensures WellShaped(i') && (!i'.op.Dead? ==> Inputs(i'.operands, physical) == Inputs(i.operands, s.file))
    ensures var t, t' := Step(effect, i, s), Step(effect, i', State(physical, s.rest));
            t'.rest == t.rest && Agree(tracks, needs, t.file, t'.file, k + 1)
  {
    if i.op.Dead? {
      assert forall v :: 0 <= v < |tracks| && Spans(tracks[v], k + 1) ==> Spans(tracks[v], k);
    } else {
      assert i.operands[..|i.operands|] == i.operands;
      forall o | o in i.operands && IsRead(o)
        ensures Low(o.width, Get(s.file, o.reg)) == Low(o.width, Get(physical, tracks[o.reg].phys.value))
      {
        var j :| 0 <= j < |i.operands| && i.operands[j] == o;
        assert OperandFits(tracks, i, k, j);
        assert Spans(tracks[o.reg], k);
        LowWithin(o.width, needs[o.reg], Get(s.file, o.reg), Get(physical, tracks[o.reg].phys.value));
      }
      InputsAgree(tracks, i.operands, s.file, physical);
      if i.op.Mov? {
        MovAgrees(tracks, needs, i, i', k, s.file, physical);
      } else {
        var (outs, rest) := effect(i.op, Inputs(i.operands, s.file), s.rest);
        OutputsAgree(tracks, needs, i, k, |i.operands|, outs, s.file, physical);
        AllSettled(tracks, needs, i, k, Outputs(i.operands, outs, s.file),
            Outputs(Rename(i.operands, tracks), outs, physical));
      }
    }
  }

  lemma {:induction false} AllSettled(tracks: seq<Track>, needs: seq<Width>, i: Instruction, k: nat, virtual: File,
      physical: File)
    requires InstructionFits(tracks, i, k) && AgreeAfter(tracks, needs, i, k, |i.operands|, virtual, physical)
    ensures Agree(tracks, needs, virtual, physical, k + 1)
  {
    forall w | 0 <= w < |tracks| && Spans(tracks[w], k + 1)
      ensures tracks[w].phys.Some? && Low(needs[w], Get(virtual, w)) ==
                Low(needs[w], Get(physical, tracks[w].phys.value))
    {
      assert Settled(tracks[w], i, k, |i.operands|, w);
    }
  }

  lemma {:induction false} MovAgrees(tracks: seq<Track>, needs: seq<Width>, i: Instruction, i': Instruction, k: nat,
      virtual: File, physical: File)
    requires WellShaped(i) && i.op.Mov? && CommitOne(i, tracks) == Some(i')
    requires PlacedWell(tracks, needs, i, k) && Agree(tracks, needs, virtual, physical, k)
    ensures var virtual' := Store(virtual, i.operands[1], Get(virtual, i.operands[0].reg));
            if i'.op.Dead? then Agree(tracks, needs, virtual', physical, k + 1)
            else i'.op == i.op && |i'.operands| == 2 &&
                 Agree(tracks, needs, virtual', Store(physical, i'.operands[1], Get(physical, i'.operands[0].reg)),
                     k + 1)
  {
    var src, dst := i.operands[0], i.operands[1];
    assert src in i.operands && dst in i.operands;
    assert OperandFits(tracks, i, k, 0) && OperandFits(tracks, i, k, 1);
    var p, q := tracks[src.reg].phys.value, tracks[dst.reg].phys.value;
    assert Spans(tracks[src.reg], k);
    var x, y := Get(virtual, src.reg), Get(physical, p);
    LowWithin(src.width, needs[src.reg], x, y);
    PutLow(dst.width, x, y, Get(physical, q));
    var physical' := Store(physical, dst.(reg := q), y);
    NothingWritten(tracks, needs, i, k, virtual, physical);
    WriteOne(tracks, needs, i, k, 0, x, virtual, physical);
    WriteOne(tracks, needs, i, k, 1, x, virtual, physical);
    AllSettled(tracks, needs, i, k, Store(virtual, dst, x), physical');
    if i'.op.Dead? {
      SelfMoveExactly(dst.width);
      assert forall r :: Get(physical', r) == Get(physical, r);
    }
  }

  ghost function LiveOf(code: Code, classes: seq<RegisterClass>, c: RegisterClass, k: nat): set<nat> {
    set v | 0 <= v < |classes| && classes[v] == c && Live(code, v, k)
  }

  /** At most 13 general and 8 XMM registers are live before any instruction. */
  ghost predicate Fitting(code: Code, classes: seq<RegisterClass>) {
    forall k :: 0 <= k < |code| ==> |LiveOf(code, classes, General, k)| <= 13 && |LiveOf(code, classes, Xmm, k)| <= 8
  }

  lemma {:induction false} FittingRanges(code: Code, classes: seq<RegisterClass>, ranges: seq<Track>)
    requires AreRanges(ranges, code, |classes|)
    ensures Fitting(code, classes) <==> Fits(ranges, classes, |code|)
  {
    PoolSizes();
    forall k, c | 0 <= k < |code| ensures LiveSet(ranges, classes, c, k) == LiveOf(code, classes, c, k) {}
    hide LiveSet, LiveOf, Pool;
    forall k | 0 <= k < |code|
      ensures Overfull(ranges, classes, k) <==>
              |LiveOf(code, classes, General, k)| > 13 || |LiveOf(code, classes, Xmm, k)| > 8
    {
      assert |LiveSet(ranges, classes, General, k)| == |LiveOf(code, classes, General, k)|;
      assert |LiveSet(ranges, classes, Xmm, k)| == |LiveOf(code, classes, Xmm, k)|;
    }
    hide Overfull;
    if Fits(ranges, classes, |code|) {
      forall k | 0 <= k < |code|
        ensures |LiveOf(code, classes, General, k)| <= 13 && |LiveOf(code, classes, Xmm, k)| <= 8
      {
        assert !Overfull(ranges, classes, k);
      }
    }
  }

  lemma {:induction false} AgreeAtStart(tracks: seq<Track>, needs: seq<Width>, virtual: File, physical: File)
    requires |needs| == |tracks|
    ensures Agree(tracks, needs, virtual, physical, 0)
  {}

  /** What the allocator has found out about a program it succeeds on. */
  ghost predicate WellAllocated(code: Code, tracks: seq<Track>) {
    forall k :: 0 <= k < |code| ==>
      if code[k].op.Dead? then forall v :: 0 <= v < |tracks| ==> tracks[v].firstDef != Some(k)
      else Placed(tracks, code[k], k)
  }

  lemma {:induction false} ScannedWell(code: Code, classes: seq<RegisterClass>, ranges: seq<Track>, a: Alloc)
    requires RangesFit(ranges, code) && Scanned(ranges, classes, a, 0)
    requires forall k :: 0 <= k < |code| ==> WellShaped(code[k])
    ensures WellAllocated(code, a.tracks)
  {
    forall k | 0 <= k < |code|
      ensures if code[k].op.Dead? then forall v :: 0 <= v < |a.tracks| ==> a.tracks[v].firstDef != Some(k)
              else Placed(a.tracks, code[k], k)
    {
      var i := code[k];
      assert InstructionFits(ranges, i, k);
      forall j | 0 <= j < |i.operands| ensures OperandFits(a.tracks, i, k, j) {
        assert OperandFits(ranges, i, k, j);
      }
      assert InstructionFits(a.tracks, i, k);
      forall o | o in i.operands ensures o.reg < |a.tracks| && a.tracks[o.reg].phys.Some? {
        var j :| 0 <= j < |i.operands| && i.operands[j] == o;
        assert OperandFits(ranges, i, k, j);
      }
    }
  }

  /** Ranges and registers as the allocator leaves them. */
  ghost function FinalTracks(code: Code, classes: seq<RegisterClass>): seq<Track>
    requires forall i <- code :: InRange(i, |classes|) && WellShaped(i)
  {
    var r := Scan(code, |classes|, |code|);
    var a := Allocate(classes, r.code, |r.code|, Alloc(r.tracks, {}));
    if a.Some? then a.value.tracks else []
  }

  /** What is known of the registers handed out. */
  ghost predicate Handed(code: Code, classes: seq<RegisterClass>, tracks: seq<Track>) {
    && |tracks| == |classes| && Apart(tracks, 0)
    && forall v :: 0 <= v < |classes| ==>
         && tracks[v].firstDef == (if OccursIn(code, v) then Some(First(code, v)) else None)
         && tracks[v].lastUse == LastUse(code, v)
         && (OccursIn(code, v) ==> tracks[v].phys.Some? && tracks[v].phys.value in Pool(classes[v]))
         && (Unread(code, v) ==> tracks[v].phys == Some(FirstRegister(classes[v])))
  }

  /** Nothing is ever handed out to `v`, which instruction `f`, not a load, defines and nobody reads. */
  ghost predicate Passed(tracks: seq<Track>, f: nat, v: nat) {
    v < |tracks| && tracks[v] == Track(Some(f), None, None)
  }

  lemma {:induction false} EndRangesPass(classes: seq<RegisterClass>, i: Instruction, k: nat, j: nat, a: Alloc,
      f: nat, v: nat)
    requires |a.tracks| == |classes| && InRange(i, |classes|) && j <= |i.operands|
    requires Passed(a.tracks, f, v) && (k == f ==> !i.op.Load?)
    ensures match EndRanges(classes, i, k, j, a)
            case Some((a', _)) => Passed(a'.tracks, f, v)
            case None => true
    decreases |i.operands| - j
  {
    if j < |i.operands| {
      var o := i.operands[j];
      assert o in i.operands;
      var t := a.tracks[o.reg];
      if !IsWrite(o) || t.firstDef != Some(k) {
        EndRangesPass(classes, i, k, j + 1, a, f, v);
      } else if t.lastUse.None? {
        if i.op.Load? {
          FirstIsFirst(classes[o.reg]);
          EndRangesPass(classes, i, k, j + 1,
                        a.(tracks := a.tracks[o.reg := t.(phys := Some(FirstRegister(classes[o.reg])))]), f, v);
        }
      } else if t.phys.Some? {
        EndRangesPass(classes, i, k, j + 1, a.(live := a.live - {t.phys.value}), f, v);
      }
    }
  }

  lemma {:induction false} StartRangesPass(classes: seq<RegisterClass>, i: Instruction, k: nat, j: nat, a: Alloc,
      f: nat, v: nat)
    requires |a.tracks| == |classes| && InRange(i, |classes|) && j <= |i.operands| && Passed(a.tracks, f, v)
    ensures match StartRanges(classes, i, k, j, a)
            case Some(a') => Passed(a'.tracks, f, v)
            case None => true
    decreases |i.operands| - j
  {
    if j < |i.operands| {
      var o := i.operands[j];
      assert o in i.operands;
      var t := a.tracks[o.reg];
      if !IsRead(o) || t.lastUse != Some(k) || t.phys.Some? {
        StartRangesPass(classes, i, k, j + 1, a, f, v);
      } else {
        match FirstDifference(Pool(classes[o.reg]), a.live, 0)
        case None =>
        case Some(p) =>
          StartRangesPass(classes, i, k, j + 1, Alloc(a.tracks[o.reg := t.(phys := Some(p))], a.live + {p}), f, v);
      }
    }
  }

  lemma {:induction false} AllocatePass(classes: seq<RegisterClass>, code: Code, k: nat, a: Alloc, f: nat, v: nat)
    requires |a.tracks| == |classes| && k <= |code| && forall i <- code :: InRange(i, |classes|)
    requires Passed(a.tracks, f, v) && f < |code| && !code[f].op.Load?
    ensures match Allocate(classes, code, k, a)
            case Some(a') => Passed(a'.tracks, f, v)
            case None => true
    decreases k
  {
    if k > 0 {
      assert code[k - 1] in code;
      EndRangesPass(classes, code[k - 1], k - 1, 0, a, f, v);
      match EndRanges(classes, code[k - 1], k - 1, 0, a)
      case None =>
      case Some((a', skip)) =>
        if skip {
          AllocatePass(classes, code, k - 1, a', f, v);
        } else {
          StartRangesPass(classes, code[k - 1], k - 1, 0, a', f, v);
          match StartRanges(classes, code[k - 1], k - 1, 0, a')
          case None =>
          case Some(a'') => AllocatePass(classes, code, k - 1, a'', f, v);
        }
    }
  }

  /** An instruction other than a load that defines a register nobody reads makes the allocator fail. */
  lemma {:induction false} UnreadFails(code: Code, classes: seq<RegisterClass>, v: nat)
    requires Allocatable(code, |classes|) && Unread(code, v) && !code[First(code, v)].op.Load?
    ensures AllocateRegisters(code, classes).None?
  {
    var f := First(code, v);
    assert code[f] in code;
    ScanFits(code, |classes|);
    var ranges := Scan(code, |classes|, |code|).tracks;
    assert v < |classes| by {
      var o :| o in code[f].operands && o.reg == v;
    }
    AllocatePass(classes, code, |code|, Alloc(ranges, {}), f, v);
    match Allocate(classes, code, |code|, Alloc(ranges, {}))
    case None =>
    case Some(a) =>
      assert CommitOne(code[f], a.tracks).None? by {
        var o :| o in code[f].operands && o.reg == v;
      }
  }

  /** The allocator succeeds exactly when the registers live at each point fit and only loads define
      registers nobody reads. */
  lemma {:induction false} AllocationSucceeds(code: Code, classes: seq<RegisterClass>)
    requires Allocatable(code, |classes|)
    ensures AllocateRegisters(code, classes).Some? <==> Fitting(code, classes) && OnlyLoadsUnread(code)
    ensures AllocateRegisters(code, classes).Some? ==>
              var tracks := FinalTracks(code, classes);
              && Commit(code, tracks) == AllocateRegisters(code, classes)
              && WellAllocated(code, tracks) && Handed(code, classes, tracks)
  {
    if OnlyLoadsUnread(code) {
      LoadsSucceed(code, classes);
    } else {
      var v :| Unread(code, v) && !code[First(code, v)].op.Load?;
      UnreadFails(code, classes, v);
    }
  }

  lemma {:induction false} LoadsSucceed(code: Code, classes: seq<RegisterClass>)
    requires Allocatable(code, |classes|) && OnlyLoadsUnread(code)
    ensures AllocateRegisters(code, classes).Some? <==> Fitting(code, classes)
    ensures AllocateRegisters(code, classes).Some? ==>
              var tracks := FinalTracks(code, classes);
              && Commit(code, tracks) == AllocateRegisters(code, classes)
              && WellAllocated(code, tracks) && Handed(code, classes, tracks)
  {
    var ranges := Scan(code, |classes|, |code|).tracks;
    ScanFits(code, |classes|);
    RangesFitCode(code, |classes|, ranges);
    FittingRanges(code, classes, ranges);
    NothingScanned(ranges, classes, code);
    AllocateScans(ranges, classes, code, |code|, Alloc(ranges, {}));
    match Allocate(classes, code, |code|, Alloc(ranges, {}))
    case None =>
    case Some(a) =>
      forall k | 0 <= k < |code| ensures WellShaped(code[k]) {
        assert code[k] in code;
      }
      hide RangesFit, Allocatable, Fitting, Fits, AreRanges, Scanned;
      ScannedWell(code, classes, ranges, a);
      ScannedHanded(code, classes, ranges, a);
      AllCommit(code, a.tracks);
  }

  lemma {:induction false} ScannedHanded(code: Code, classes: seq<RegisterClass>, ranges: seq<Track>, a: Alloc)
    requires AreRanges(ranges, code, |classes|) && Scanned(ranges, classes, a, 0)
    ensures Handed(code, classes, a.tracks)
  {
    hide Apart, Holds;
    forall v | 0 <= v < |classes| && OccursIn(code, v)
      ensures a.tracks[v].phys.Some? && a.tracks[v].phys.value in Pool(classes[v])
    {
      assert Met(ranges[v], 0);
    }
  }

  lemma {:induction false} AllCommit(code: Code, tracks: seq<Track>)
    requires (forall i <- code :: WellShaped(i)) && WellAllocated(code, tracks)
    ensures Commit(code, tracks).Some?
  {
    hide InstructionFits, Apart;
    forall i | i in code ensures CommitOne(i, tracks).Some? {
      var k :| 0 <= k < |code| && code[k] == i;
    }
  }

  lemma {:induction false} CommitWellShaped(code: Code, code': Code, tracks: seq<Track>)
    requires (forall i <- code :: WellShaped(i)) && Commit(code, tracks) == Some(code')
    ensures forall i <- code' :: WellShaped(i)
  {
    hide WellShaped, CommitOne;
    forall i | i in code' ensures WellShaped(i) {
      var j :| 0 <= j < |code'| && code'[j] == i;
      assert code[j] in code;
      CommitOneShaped(code[j], i, tracks);
    }
  }

  lemma {:induction false} CommitOneShaped(i: Instruction, i': Instruction, tracks: seq<Track>)
    requires WellShaped(i) && CommitOne(i, tracks) == Some(i')
    ensures WellShaped(i')
  {}

  lemma {:induction false} BeforeAgrees<H>(effect: Effect<H>, code: Code, code': Code, tracks: seq<Track>,
      needs: seq<Width>, s: State<H>, physical: File, k: nat)
    requires k <= |code| && WellAllocated(code, tracks) && (forall i <- code :: WellShaped(i))
               && Commit(code, tracks) == Some(code')
    requires Unspoilt(tracks) && forall j :: 0 <= j < k ==> NoClash(tracks, code[j], j)
    requires |needs| == |tracks| && forall j :: 0 <= j < |code| ==> WidthsFitAt(tracks, needs, code[j], j)
    requires forall i <- code' :: WellShaped(i)
    ensures var b, b' := Before(effect, code, s, k), Before(effect, code', State(physical, s.rest), k);
            b'.rest == b.rest && Agree(tracks, needs, b.file, b'.file, k)
  {
    hide Placed, NoClash, Unspoilt, Agree, Step, Commit, CommitOne, WidthsFitAt;
    if k > 0 {
      BeforeAgrees(effect, code, code', tracks, needs, s, physical, k - 1);
      var b, b' := Before(effect, code, s, k - 1), Before(effect, code', State(physical, s.rest), k - 1);
      assert code[k - 1] in code;
      StepAgrees(effect, tracks, needs, code[k - 1], code'[k - 1], k - 1, b, b'.file);
    } else {
      AgreeAtStart(tracks, needs, s.file, physical);
    }
  }

  /** An operand that starts a range comes after every writing operand of its class whose range ends at
      the same instruction. */
  ghost predicate Ordered(code: Code, classes: seq<RegisterClass>) {
    forall k, j, j' :: 0 <= k < |code| && 0 <= j < |code[k].operands| && 0 <= j' < |code[k].operands| ==>
      !OutOfOrder(code, classes, k, j, j')
  }

  ghost predicate OutOfOrder(code: Code, classes: seq<RegisterClass>, k: nat, j: nat, j': nat)
    requires k < |code| && j < |code[k].operands| && j' < |code[k].operands|
  {
    var w, v := code[k].operands[j].reg, code[k].operands[j'].reg;
    && j < j' && IsWrite(code[k].operands[j'])
    && w < |classes| && v < |classes| && classes[w] == classes[v]
    && OccursIn(code, w) && OccursIn(code, v) && First(code, w) == k == Last(code, v)
  }

  /** No operand that is written follows a plain definition of the same instruction. */
  ghost predicate DefinitionsLast(code: Code) {
    forall k, j, j' :: 0 <= k < |code| && 0 <= j < j' < |code[k].operands| && code[k].operands[j].direction.Def? ==>
      !IsWrite(code[k].operands[j'])
  }

  /** Instructions that list what they update before what they define are in order. */
  lemma {:induction false} DefinitionsLastOrdered(code: Code, classes: seq<RegisterClass>)
    requires Allocatable(code, |classes|) && DefinitionsLast(code)
    ensures Ordered(code, classes)
  {
    forall k, j, j' | 0 <= k < |code| && 0 <= j < |code[k].operands| && 0 <= j' < |code[k].operands|
      ensures !OutOfOrder(code, classes, k, j, j')
    {
      assert OperandOk(code, k, j);
    }
  }

  /** In ordered code no two operands that meet get one register. */
  lemma {:induction false} OrderedUnclashed(code: Code, classes: seq<RegisterClass>, tracks: seq<Track>)
    requires Ordered(code, classes) && Handed(code, classes, tracks)
    ensures Unclashed(code, tracks)
  {
    forall k, j, j' | 0 <= k < |code| && 0 <= j < |code[k].operands| && 0 <= j' < |code[k].operands|
        && Meets(tracks, code[k], k, j, j')
      ensures tracks[code[k].operands[j].reg].phys != tracks[code[k].operands[j'].reg].phys
    {
      var w, v := code[k].operands[j].reg, code[k].operands[j'].reg;
      assert !OutOfOrder(code, classes, k, j, j');
      if tracks[w].phys == tracks[v].phys {
        PoolsApart(classes[w], classes[v], tracks[w].phys.value);
      }
    }
  }

  /** No range that is live after an unread load has the first register of the load's class. */
  ghost predicate LoadsClear(code: Code, classes: seq<RegisterClass>, tracks: seq<Track>)
    requires |tracks| == |classes|
  {
    forall v, w :: 0 <= v < |classes| && 0 <= w < |classes| && Unread(code, v) && Live(code, w, First(code, v) + 1) ==>
      tracks[w].phys != Some(FirstRegister(classes[v]))
  }

  /** No range of the class of an unread load is live after it. */
  ghost predicate LoadsAlone(code: Code, classes: seq<RegisterClass>) {
    forall v, w :: 0 <= v < |classes| && 0 <= w < |classes| && Unread(code, v) && Live(code, w, First(code, v) + 1) ==>
      classes[w] != classes[v]
  }

  lemma {:induction false} ClearUnspoilt(code: Code, classes: seq<RegisterClass>, tracks: seq<Track>)
    requires Handed(code, classes, tracks)
    ensures LoadsClear(code, classes, tracks) <==> Unspoilt(tracks)
  {
    hide Apart;
    forall v | 0 <= v < |classes| ensures Unread(code, v) <==> Idle(tracks[v]) {}
    forall w, k | 0 <= w < |classes| ensures Live(code, w, k) <==> Spans(tracks[w], k) {
      LiveSpans(code, classes, tracks, w, k);
    }
    hide Live, Spans, Unread, Idle, OccursIn;
  }

  lemma {:induction false} LiveSpans(code: Code, classes: seq<RegisterClass>, tracks: seq<Track>, w: nat, k: nat)
    requires Handed(code, classes, tracks) && w < |classes|
    ensures Live(code, w, k) <==> Spans(tracks[w], k)
  {
  }

  /** Where unread loads are alone in their class they spoil nothing. */
  lemma {:induction false} AloneClear(code: Code, classes: seq<RegisterClass>, tracks: seq<Track>)
    requires Handed(code, classes, tracks) && LoadsAlone(code, classes)
    ensures LoadsClear(code, classes, tracks)
  {
    forall v, w | 0 <= v < |classes| && 0 <= w < |classes| && Unread(code, v) && Live(code, w, First(code, v) + 1)
      ensures tracks[w].phys != Some(FirstRegister(classes[v]))
    {
      if tracks[w].phys == Some(FirstRegister(classes[v])) {
        PoolsApart(classes[v], classes[w], FirstRegister(classes[v]));
      }
    }
  }

  /** No operand reads more of a register than `needs` says, and the operand that a register is born in decides
      that much of it. */
  ghost predicate WidthsFit(code: Code, needs: seq<Width>) {
    forall k, j :: 0 <= k < |code| && 0 <= j < |code[k].operands| && code[k].operands[j].reg < |needs| ==>
      OperandWidthFits(code, needs, k, j)
  }

  ghost predicate OperandWidthFits(code: Code, needs: seq<Width>, k: nat, j: nat)
    requires k < |code| && j < |code[k].operands| && code[k].operands[j].reg < |needs|
  {
    var o := code[k].operands[j];
    && (IsRead(o) ==> Within(o.width, needs[o.reg]))
    && (OccursIn(code, o.reg) && First(code, o.reg) == k ==> Decides(o.width, needs[o.reg]))
  }

  lemma {:induction false} HandedWidths(code: Code, classes: seq<RegisterClass>, tracks: seq<Track>, needs: seq<Width>)
    requires Handed(code, classes, tracks) && WidthsFit(code, needs) && |needs| == |classes|
    ensures forall k :: 0 <= k < |code| ==> WidthsFitAt(tracks, needs, code[k], k)
  {
    forall k, j | 0 <= k < |code| && 0 <= j < |code[k].operands| && code[k].operands[j].reg < |needs|
      ensures var o := code[k].operands[j];
              && (IsRead(o) ==> Within(o.width, needs[o.reg]))
              && (tracks[o.reg].firstDef == Some(k) ==> Decides(o.width, needs[o.reg]))
    {
      assert OperandWidthFits(code, needs, k, j);
    }
  }

  /** Register allocation preserves meaning: from any register contents, before every instruction the
      allocated code is in the same machine state apart from registers, every live register's value is in
      the register it was given, and every instruction that is left reads the values it read before. */
  lemma {:induction false} AllocationPreservesMeaning<H>(effect: Effect<H>, code: Code, classes: seq<RegisterClass>,
      needs: seq<Width>, code': Code, s: State<H>, physical: File, k: nat)
    requires Allocatable(code, |classes|) && Ordered(code, classes) && LoadsAlone(code, classes)
    requires |needs| == |classes| && WidthsFit(code, needs)
    requires AllocateRegisters(code, classes) == Some(code') && k <= |code|
    ensures |code'| == |code| && forall i <- code' :: WellShaped(i)
    ensures var b, b' := Before(effect, code, s, k), Before(effect, code', State(physical, s.rest), k);
      && b'.rest == b.rest && Agree(FinalTracks(code, classes), needs, b.file, b'.file, k)
      && (k < |code| && !code'[k].op.Dead? ==> Inputs(code'[k].operands, b'.file) == Inputs(code[k].operands, b.file))
  {
    var tracks := FinalTracks(code, classes);
    AllocationSucceeds(code, classes);
    OrderedUnclashed(code, classes, tracks);
    AloneClear(code, classes, tracks);
    ClearUnspoilt(code, classes, tracks);
    HandedWidths(code, classes, tracks, needs);
    CommitWellShaped(code, code', tracks);
    BeforeAgrees(effect, code, code', tracks, needs, s, physical, k);
    if k < |code| {
      var b, b' := Before(effect, code, s, k), Before(effect, code', State(physical, s.rest), k);
      assert code[k] in code;
      StepAgrees(effect, tracks, needs, code[k], code'[k], k, b, b'.file);
    }
  }
}
