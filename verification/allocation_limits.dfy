/** Exactly when allocated code keeps every live value: when no two operands that meet in an instruction
    get one register, and no load that nobody reads takes the register of a live value. */
module AllocationLimits {
  import opened Wrappers
  import opened Rudder
  import opened Widths
  import opened RegisterCode
  import opened RegisterAllocator
  import opened LiveRanges
  import opened AllocationInvariant
  import opened AllocationSemantics

  /** The value written to output `n`. */
  function Out(outs: seq<Word>, n: nat): Word {
    if n < |outs| then outs[n] else 0
  }

  lemma {:induction false} WritesGrow(operands: seq<Operand>, j: nat)
    requires j < |operands|
    ensures Writes(operands[..j]) + (if IsWrite(operands[j]) then 1 else 0) <= Writes(operands)
    decreases |operands|
  {
    var n := |operands| - 1;
    if j < n {
      assert operands[..n][..j] == operands[..j];
      WritesGrow(operands[..n], j);
    }
  }

  /** A register that only operand `j` mentions holds that operand's output. */
  lemma {:induction false} OnlyWrite(operands: seq<Operand>, outs: seq<Word>, f: File, j: nat)
    requires j < |operands| && IsWrite(operands[j])
    requires forall m :: j < m < |operands| ==> operands[m].reg != operands[j].reg
    ensures Low(W8, Get(Outputs(operands, outs, f), operands[j].reg)) == Low(W8, Out(outs, Writes(operands[..j])))
    decreases |operands|
  {
    var n := |operands| - 1;
    ByteOfPut(operands[n].width, Out(outs, Writes(operands[..n])),
              Get(Outputs(operands[..n], outs, f), operands[n].reg));
    hide Low, Put;
    if j < n {
      assert operands[..n][..j] == operands[..j];
      OnlyWrite(operands[..n], outs, f, j);
    }
  }

  /** A register written at operand `j` holds the output of that or of a later operand. */
  lemma {:induction false} LaterWrite(operands: seq<Operand>, outs: seq<Word>, f: File, j: nat) returns (n: nat)
    requires j < |operands| && IsWrite(operands[j])
    ensures Writes(operands[..j]) <= n
              && Low(W8, Get(Outputs(operands, outs, f), operands[j].reg)) == Low(W8, Out(outs, n))
    decreases |operands|
  {
    var last := |operands| - 1;
    var init := operands[..last];
    ByteOfPut(operands[last].width, Out(outs, Writes(init)), Get(Outputs(init, outs, f), operands[last].reg));
    hide Low, Put;
    if j == last {
      n := Writes(init);
    } else {
      assert init[..j] == operands[..j];
      if IsWrite(operands[last]) && operands[last].reg == operands[j].reg {
        WritesGrow(init, j);
        n := Writes(init);
      } else {
        n := LaterWrite(init, outs, f, j);
      }
    }
  }

  /** How many of the first `k` instructions have an effect of their own. */
  function Calls(code: Code, k: nat): nat
    requires k <= |code|
  {
    if k == 0 then 0 else Calls(code, k - 1) + if code[k - 1].op.Mov? || code[k - 1].op.Dead? then 0 else 1
  }

  /** A 1 for output `n` and a 0 for every other. */
  function Marks(n: nat): seq<Word> {
    seq(n, _ => 0) + [1]
  }

  /** Counts instructions; number `c` writes 1 to its output `n` and 0 to every other one, all others
      write only 0. */
  function Marking(c: nat, n: nat): Effect<nat> {
    (op: Opcode, inputs: seq<Word>, count: nat) =>
      (if count == c then Marks(n) else [], count + 1)
  }

  lemma {:induction false} MarkingCounts(c: nat, n: nat, code: Code, s: State<nat>, k: nat)
    requires k <= |code| && forall i <- code :: WellShaped(i)
    ensures Before(Marking(c, n), code, s, k).rest == s.rest + Calls(code, k)
    decreases k
  {
    if k > 0 {
      MarkingCounts(c, n, code, s, k - 1);
      assert code[k - 1] in code;
    }
  }

  lemma {:induction false} CommitCalls(code: Code, code': Code, tracks: seq<Track>, k: nat)
    requires (forall i <- code :: WellShaped(i)) && Commit(code, tracks) == Some(code') && k <= |code|
    ensures Calls(code', k) == Calls(code, k)
    decreases k
  {
    if k > 0 {
      CommitCalls(code, code', tracks, k - 1);
      assert CommitOne(code[k - 1], tracks) == Some(code'[k - 1]);
    }
  }

  /** Allocated code keeps every live value in the register it was given, whatever instructions do. */
  ghost predicate KeepsValues(code: Code, code': Code, tracks: seq<Track>, needs: seq<Width>)
    requires |code| == |code'| && (forall i <- code :: WellShaped(i)) && forall i <- code' :: WellShaped(i)
  {
    forall effect: Effect<nat>, s: State<nat>, physical: File, k: nat
      {:trigger Before(effect, code, s, k), Before(effect, code', State(physical, s.rest), k)} ::
      k <= |code| ==>
        Agree(tracks, needs, Before(effect, code, s, k).file, Before(effect, code', State(physical, s.rest), k).file, k)
  }

  /** Operand `j` of instruction `k` starts a range in the register that a later operand writes for the
      last time. */
  ghost predicate ClashAt(code: Code, tracks: seq<Track>, k: nat, j: nat, j': nat) {
    && k < |code| && j < |code[k].operands| && j' < |code[k].operands| && Meets(tracks, code[k], k, j, j')
    && tracks[code[k].operands[j].reg].phys == tracks[code[k].operands[j'].reg].phys
  }

  /** After such an instruction some effect leaves the new register without its value. */
  lemma {:induction false} ClashOutputs(tracks: seq<Track>, needs: seq<Width>, i: Instruction, k: nat, j: nat,
      j': nat, virtual: File, physical: File)
    requires WellShaped(i) && Placed(tracks, i, k) && j < |i.operands| && j' < |i.operands|
               && Meets(tracks, i, k, j, j')
    requires tracks[i.operands[j].reg].phys == tracks[i.operands[j'].reg].phys
    ensures var outs := Marks(Writes(i.operands[..j]));
            !Agree(tracks, needs, Outputs(i.operands, outs, virtual),
                Outputs(Rename(i.operands, tracks), outs, physical), k + 1)
  {
    var operands := i.operands;
    var n := Writes(operands[..j]);
    var outs := Marks(n);
    var w := operands[j].reg;
    assert OperandFits(tracks, i, k, j) && operands[j'] in operands && operands[j] in operands;
    OnlyWrite(operands, outs, virtual, j);
    var renamed := Rename(operands, tracks);
    var m := LaterWrite(renamed, outs, physical, j');
    AssignedPrefix(tracks, operands, j');
    assert renamed[..j'] == Rename(operands[..j'], tracks);
    WritesRename(tracks, operands[..j']);
    assert operands[..j'][..j] == operands[..j];
    WritesGrow(operands[..j'], j);
    assert Spans(tracks[w], k + 1);
    hide Outputs, Placed, Low;
    LowMarks(n, m);
    BytesDiffer(tracks, needs, Outputs(operands, outs, virtual), Outputs(renamed, outs, physical), k + 1, w);
  }

  lemma {:induction false} LowMarks(n: nat, m: nat)
    requires n != m
    ensures Low(W8, Out(Marks(n), n)) != Low(W8, Out(Marks(n), m))
  {}

  lemma {:induction false} BytesDiffer(tracks: seq<Track>, needs: seq<Width>, virtual: File, physical: File, k: nat,
      w: nat)
    requires w < |tracks| && Spans(tracks[w], k) && tracks[w].phys.Some?
    requires Low(W8, Get(virtual, w)) != Low(W8, Get(physical, tracks[w].phys.value))
    ensures !Agree(tracks, needs, virtual, physical, k)
  {
    hide Low;
    if |needs| == |tracks| {
      var x, y := Get(virtual, w), Get(physical, tracks[w].phys.value);
      if Low(needs[w], x) == Low(needs[w], y) {
        LowestByte(needs[w], x, y);
      }
    }
  }

  lemma {:induction false} MarkedStep(c: nat, n: nat, i: Instruction, b: State<nat>)
    requires WellShaped(i) && !i.op.Mov? && !i.op.Dead? && b.rest == c
    ensures Step(Marking(c, n), i, b).file == Outputs(i.operands, Marks(n), b.file)
  {
    assert Marking(c, n)(i.op, Inputs(i.operands, b.file), b.rest).0 == Marks(n);
  }

  /** Operands that meet are not those of a move. */
  lemma {:induction false} MeetingNoMove(tracks: seq<Track>, i: Instruction, k: nat, j: nat, j': nat)
    requires WellShaped(i) && InstructionFits(tracks, i, k) && j < |i.operands| && j' < |i.operands|
               && Meets(tracks, i, k, j, j')
    ensures !i.op.Mov? && !i.op.Dead?
  {
    assert OperandFits(tracks, i, k, j);
  }

  /** Instruction `k` has an effect of its own, before and after allocation. */
  lemma {:induction false} ClashShape(code: Code, code': Code, tracks: seq<Track>, k: nat, j: nat, j': nat)
    requires (forall i <- code :: WellShaped(i)) && Commit(code, tracks) == Some(code')
    requires WellAllocated(code, tracks) && ClashAt(code, tracks, k, j, j')
    ensures Placed(tracks, code[k], k) && !code[k].op.Mov? && !code[k].op.Dead?
    ensures code'[k] == Instruction(code[k].op, Rename(code[k].operands, tracks))
  {
    assert code[k] in code;
    hide Apart, InstructionFits, Rename, Assigned;
    assert Placed(tracks, code[k], k);
    MeetingNoMove(tracks, code[k], k, j, j');
    assert CommitOne(code[k], tracks) == Some(code'[k]);
  }

  /** If marking an output of instruction `k` leaves some live register without its value, values are not kept. */
  lemma {:induction false} MarkBreaks(code: Code, code': Code, tracks: seq<Track>, needs: seq<Width>, k: nat, n: nat)
    requires (forall i <- code :: WellShaped(i)) && Commit(code, tracks) == Some(code')
               && forall i <- code' :: WellShaped(i)
    requires k < |code| && !code[k].op.Mov? && !code[k].op.Dead?
    requires Assigned(code[k].operands, tracks) && code'[k] == Instruction(code[k].op, Rename(code[k].operands, tracks))
    requires forall virtual: File, physical: File ::
               virtual == Before(Marking(Calls(code, k), n), code, State(map[], 0), k).file ==>
               !Agree(tracks, needs, Outputs(code[k].operands, Marks(n), virtual),
                      Outputs(Rename(code[k].operands, tracks), Marks(n), physical), k + 1)
    ensures !KeepsValues(code, code', tracks, needs)
  {
    var c := Calls(code, k);
    var effect := Marking(c, n);
    var s: State<nat> := State(map[], 0);
    var b, b' := Before(effect, code, s, k), Before(effect, code', State(map[], s.rest), k);
    assert code[k] in code && code'[k] in code';
    hide Commit, Agree, Marking, Step, Outputs, Rename, WellShaped, Assigned;
    MarkingCounts(c, n, code, s, k);
    MarkingCounts(c, n, code', State(map[], s.rest), k);
    CommitCalls(code, code', tracks, k);
    MarkedStep(c, n, code[k], b);
    MarkedStep(c, n, code'[k], b');
    assert Before(effect, code, s, k + 1) == Step(effect, code[k], b);
    assert Before(effect, code', State(map[], s.rest), k + 1) == Step(effect, code'[k], b');
  }

  lemma {:induction false} ClashBreaks(code: Code, code': Code, tracks: seq<Track>, needs: seq<Width>, k: nat, j: nat,
      j': nat)
    requires (forall i <- code :: WellShaped(i)) && Commit(code, tracks) == Some(code')
               && forall i <- code' :: WellShaped(i)
    requires WellAllocated(code, tracks) && ClashAt(code, tracks, k, j, j')
    ensures !KeepsValues(code, code', tracks, needs)
  {
    ClashShape(code, code', tracks, k, j, j');
    assert code[k] in code;
    var operands := code[k].operands;
    var n := Writes(operands[..j]);
    forall virtual: File, physical: File
      ensures !Agree(tracks, needs, Outputs(operands, Marks(n), virtual),
                Outputs(Rename(operands, tracks), Marks(n), physical), k + 1)
    {
      hide WellAllocated, Commit, Placed, Agree, Outputs, Rename, WellShaped;
      ClashOutputs(tracks, needs, code[k], k, j, j', virtual, physical);
    }
    hide WellAllocated, Commit, InstructionFits, Apart, Agree, Outputs, Rename, WellShaped, KeepsValues;
    MarkBreaks(code, code', tracks, needs, k, n);
  }

  lemma {:induction false} NoOutputs(operands: seq<Operand>, outs: seq<Word>, f: File)
    requires forall o <- operands :: !IsWrite(o)
    ensures Writes(operands) == 0 && Outputs(operands, outs, f) == f
  {
    if operands != [] {
      assert operands[|operands| - 1] in operands;
      NoOutputs(operands[..|operands| - 1], outs, f);
    }
  }

  ghost predicate AllZero(f: File) {
    forall r :: Get(f, r) == 0
  }

  lemma {:induction false} ZeroOutputs(operands: seq<Operand>, f: File)
    requires AllZero(f)
    ensures AllZero(Outputs(operands, [], f))
  {
    if operands != [] {
      var init := operands[..|operands| - 1];
      ZeroOutputs(init, f);
      forall r ensures Get(Outputs(operands, [], f), r) == 0 {
        assert Get(Outputs(init, [], f), r) == 0;
      }
    }
  }

  lemma {:induction false} ZeroStep(c: nat, n: nat, i: Instruction, s: State<nat>)
    requires WellShaped(i) && AllZero(s.file) && (i.op.Mov? || i.op.Dead? || s.rest != c)
    ensures AllZero(Step(Marking(c, n), i, s).file)
  {
    if !i.op.Mov? && !i.op.Dead? {
      assert Marking(c, n)(i.op, Inputs(i.operands, s.file), s.rest).0 == [];
      ZeroOutputs(i.operands, s.file);
    } else if i.op.Mov? {
      assert Get(s.file, i.operands[0].reg) == 0;
      forall r ensures Get(Step(Marking(c, n), i, s).file, r) == 0 {
        assert Get(s.file, r) == 0;
      }
    }
  }

  /** Until its instruction comes, the marking effect leaves every register at zero. */
  lemma {:induction false} MarkingZero(c: nat, n: nat, code: Code, k: nat)
    requires k <= |code| && (forall i <- code :: WellShaped(i)) && Calls(code, k) <= c
    ensures AllZero(Before(Marking(c, n), code, State(map[], 0), k).file)
    decreases k
  {
    if k > 0 {
      MarkingZero(c, n, code, k - 1);
      MarkingCounts(c, n, code, State(map[], 0), k - 1);
      assert code[k - 1] in code;
      ZeroStep(c, n, code[k - 1], Before(Marking(c, n), code, State(map[], 0), k - 1));
    }
  }

  /** What a load nobody reads leaves in its register is what a live register loses. */
  lemma {:induction false} SpoiltOutputs(tracks: seq<Track>, needs: seq<Width>, i: Instruction, k: nat, v: nat,
      w: nat, virtual: File, physical: File)
    requires WellShaped(i) && Placed(tracks, i, k) && v < |tracks| && w < |tracks|
    requires Idle(tracks[v]) && tracks[v].firstDef == Some(k)
    requires Spans(tracks[w], k + 1) && tracks[v].phys == tracks[w].phys && Get(virtual, w) == 0
    ensures i.op.Load?
    ensures !Agree(tracks, needs, Outputs(i.operands, Marks(0), virtual),
              Outputs(Rename(i.operands, tracks), Marks(0), physical), k + 1)
  {
    hide Apart, InstructionFits, Outputs, Low, Put;
    IdleAlone(tracks, i, k, v);
    var operands, renamed := i.operands, Rename(i.operands, tracks);
    var n, p := |operands| - 1, tracks[w].phys.value;
    assert operands[n] in operands;
    assert renamed[n] == operands[n].(reg := p) && Out(Marks(0), 0) == 1 && Out(Marks(0), 1) == 0;
    LoadOutputs(operands, Marks(0), virtual);
    LoadOutputs(renamed, Marks(0), physical);
    ByteOfPut(operands[n].width, 1, Get(physical, p));
    LowMarks(0, 1);
    hide Rename, Placed;
    BytesDiffer(tracks, needs, Outputs(operands, Marks(0), virtual), Outputs(renamed, Marks(0), physical), k + 1, w);
  }

  lemma {:induction false} LoadOutputs(operands: seq<Operand>, outs: seq<Word>, f: File)
    requires operands != [] && IsWrite(operands[|operands| - 1])
    requires forall j :: 0 <= j < |operands| - 1 ==> !IsWrite(operands[j])
    ensures Outputs(operands, outs, f) == Store(f, operands[|operands| - 1], Out(outs, 0))
  {
    NoOutputs(operands[..|operands| - 1], outs, f);
  }

  /** A load nobody reads that has the place of a live register breaks it. */
  lemma {:induction false} SpoiltBreaks(code: Code, code': Code, tracks: seq<Track>, needs: seq<Width>, v: nat, w: nat)
    requires (forall i <- code :: WellShaped(i)) && Commit(code, tracks) == Some(code')
               && forall i <- code' :: WellShaped(i)
    requires WellAllocated(code, tracks) && v < |tracks| && w < |tracks|
    requires Idle(tracks[v]) && tracks[v].firstDef.value < |code|
    requires Spans(tracks[w], tracks[v].firstDef.value + 1) && tracks[v].phys == tracks[w].phys
    ensures !KeepsValues(code, code', tracks, needs)
  {
    var k := tracks[v].firstDef.value;
    SpoiltShape(code, code', tracks, k, v);
    assert code[k] in code;
    var operands := code[k].operands;
    MarkingZero(Calls(code, k), 0, code, k);
    forall virtual: File, physical: File | AllZero(virtual)
      ensures !Agree(tracks, needs, Outputs(operands, Marks(0), virtual),
                Outputs(Rename(operands, tracks), Marks(0), physical), k + 1)
    {
      assert Get(virtual, w) == 0;
      hide WellAllocated, Commit, Placed, Agree, Outputs, Rename, WellShaped;
      SpoiltOutputs(tracks, needs, code[k], k, v, w, virtual, physical);
    }
    hide WellAllocated, Commit, InstructionFits, Apart, Agree, Outputs, Rename, WellShaped, KeepsValues;
    MarkBreaks(code, code', tracks, needs, k, 0);
  }

  lemma {:induction false} SpoiltShape(code: Code, code': Code, tracks: seq<Track>, k: nat, v: nat)
    requires (forall i <- code :: WellShaped(i)) && Commit(code, tracks) == Some(code') && WellAllocated(code, tracks)
    requires k < |code| && v < |tracks| && Idle(tracks[v]) && tracks[v].firstDef == Some(k)
    ensures Placed(tracks, code[k], k) && code[k].op.Load?
    ensures code'[k] == Instruction(code[k].op, Rename(code[k].operands, tracks))
  {
    assert code[k] in code;
    hide Apart, InstructionFits, Rename, Assigned;
    assert Placed(tracks, code[k], k);
    IdleAlone(tracks, code[k], k, v);
    assert CommitOne(code[k], tracks) == Some(code'[k]);
  }

  lemma {:induction false} UnclashedKeeps(code: Code, code': Code, tracks: seq<Track>, needs: seq<Width>)
    requires (forall i <- code :: WellShaped(i)) && Commit(code, tracks) == Some(code')
               && forall i <- code' :: WellShaped(i)
    requires WellAllocated(code, tracks) && Unclashed(code, tracks) && Unspoilt(tracks)
    requires |needs| == |tracks| && forall j :: 0 <= j < |code| ==> WidthsFitAt(tracks, needs, code[j], j)
    ensures KeepsValues(code, code', tracks, needs)
  {
    hide WellAllocated, NoClash, Unspoilt, WidthsFitAt, Agree, Before, Commit, WellShaped;
    forall effect: Effect<nat>, s: State<nat>, physical: File, k: nat | k <= |code|
      ensures Agree(tracks, needs, Before(effect, code, s, k).file,
                Before(effect, code', State(physical, s.rest), k).file, k)
    {
      BeforeAgrees(effect, code, code', tracks, needs, s, physical, k);
    }
  }

  lemma {:induction false} ClashedBreaks(code: Code, code': Code, tracks: seq<Track>, needs: seq<Width>)
    requires (forall i <- code :: WellShaped(i)) && Commit(code, tracks) == Some(code')
               && forall i <- code' :: WellShaped(i)
    requires WellAllocated(code, tracks) && !Unclashed(code, tracks)
    ensures !KeepsValues(code, code', tracks, needs)
  {
    hide WellAllocated, KeepsValues, Commit, WellShaped;
    var k :| 0 <= k < |code| && !NoClash(tracks, code[k], k);
    var j, j' :| 0 <= j < |code[k].operands| && 0 <= j' < |code[k].operands| && Meets(tracks, code[k], k, j, j')
                 && tracks[code[k].operands[j].reg].phys == tracks[code[k].operands[j'].reg].phys;
    ClashBreaks(code, code', tracks, needs, k, j, j');
  }

  lemma {:induction false} UnclearBreaks(code: Code, classes: seq<RegisterClass>, code': Code, tracks: seq<Track>,
      needs: seq<Width>)
    requires (forall i <- code :: WellShaped(i)) && Commit(code, tracks) == Some(code')
               && forall i <- code' :: WellShaped(i)
    requires WellAllocated(code, tracks) && Handed(code, classes, tracks) && !LoadsClear(code, classes, tracks)
    ensures !KeepsValues(code, code', tracks, needs)
  {
    hide WellAllocated, KeepsValues, Commit, WellShaped, Apart;
    var v, w :| 0 <= v < |classes| && 0 <= w < |classes| && Unread(code, v) && Live(code, w, First(code, v) + 1)
                && tracks[w].phys == Some(FirstRegister(classes[v]));
    SpoiltBreaks(code, code', tracks, needs, v, w);
  }

  /** Allocated code keeps every live value for every effect exactly when operands that meet get different
      registers and no range live after an unread load has the first register of the load's class. */
  lemma {:induction false} AllocationExactly(code: Code, classes: seq<RegisterClass>, needs: seq<Width>, code': Code)
    requires Allocatable(code, |classes|) && AllocateRegisters(code, classes) == Some(code')
    requires |needs| == |classes| && WidthsFit(code, needs)
    ensures |code'| == |code| && (forall i <- code' :: WellShaped(i)) && |FinalTracks(code, classes)| == |classes|
    ensures KeepsValues(code, code', FinalTracks(code, classes), needs) <==>
            Unclashed(code, FinalTracks(code, classes)) && LoadsClear(code, classes, FinalTracks(code, classes))
  {
    var tracks := FinalTracks(code, classes);
    AllocationSucceeds(code, classes);
    assert |tracks| == |classes|;
    hide WellAllocated, Handed, Fitting, KeepsValues, Unclashed, FinalTracks, AllocateRegisters, LoadsClear,
        WidthsFit, WidthsFitAt;
    CommitWellShaped(code, code', tracks);
    ClearUnspoilt(code, classes, tracks);
    HandedWidths(code, classes, tracks, needs);
    if !Unclashed(code, tracks) {
      ClashedBreaks(code, code', tracks, needs);
    } else if !LoadsClear(code, classes, tracks) {
      UnclearBreaks(code, classes, code', tracks, needs);
    } else {
      UnclashedKeeps(code, code', tracks, needs);
    }
  }

  /** Two loads, of which only the first is read. */
  function LoadTwiceUseOnce(x: nat, y: nat, z: nat): Code {
    [Instruction(Load(x), [Operand(Def, 0, W64)]), Instruction(Load(y), [Operand(Def, 1, W64)]),
     Instruction(Other(z), [Operand(Use, 0, W64)])]
  }

  lemma {:induction false} LoadTwiceOccurs(x: nat, y: nat, z: nat)
    ensures var code := LoadTwiceUseOnce(x, y, z);
            && OccursIn(code, 0) && OccursIn(code, 1) && (forall v :: OccursIn(code, v) ==> v < 2)
            && First(code, 0) == 0 && Last(code, 0) == 2 && First(code, 1) == 1 == Last(code, 1)
  {
    var code := LoadTwiceUseOnce(x, y, z);
    forall v
      ensures Occurs(code[0], v) <==> v == 0
      ensures Occurs(code[1], v) <==> v == 1
      ensures Occurs(code[2], v) <==> v == 0
    {
      assert Operand(Def, 0, W64) in code[0].operands && Operand(Def, 1, W64) in code[1].operands
          && Operand(Use, 0, W64) in code[2].operands;
    }
    assert code[0] in code && code[1] in code && code[2] in code;
  }

  lemma {:induction false} LoadTwiceAllocatable(x: nat, y: nat, z: nat)
    ensures var code := LoadTwiceUseOnce(x, y, z);
            Allocatable(code, 2) && Unread(code, 1) && First(code, 1) == 1 && Live(code, 0, 2)
  {
    var code := LoadTwiceUseOnce(x, y, z);
    LoadTwiceOccurs(x, y, z);
    assert Operand(Use, 0, W64) in code[2].operands;
    assert ReadsReg(code[2], 0);
    hide First, Last, ReadsReg, OccursIn;
  }

  lemma {:induction false} LoadTwiceTracks(x: nat, y: nat, z: nat, c: RegisterClass)
    requires Allocatable(LoadTwiceUseOnce(x, y, z), 2)
    ensures var p := Some(FirstRegister(c));
            FinalTracks(LoadTwiceUseOnce(x, y, z), [c, c]) == [Track(Some(0), Some(2), p), Track(Some(1), None, p)]
  {
    var code, classes := LoadTwiceUseOnce(x, y, z), [c, c];
    LoadTwiceOccurs(x, y, z);
    ScanFindsRanges(code, 2);
    var ranges := [Track(Some(0), Some(2), None), Track(Some(1), None, None)];
    assert Scan(code, 2, 3).tracks == ranges;
    FirstIsFirst(c);
    var p := FirstRegister(c);
    LoadTwiceScan(x, y, z, c, p);
  }

  lemma {:induction false} LoadTwiceScan(x: nat, y: nat, z: nat, c: RegisterClass, p: nat)
    requires FirstDifference(Pool(c), {}, 0) == Some(p)
    requires forall i <- LoadTwiceUseOnce(x, y, z) :: InRange(i, 2)
    ensures Allocate([c, c], LoadTwiceUseOnce(x, y, z), 3,
                     Alloc([Track(Some(0), Some(2), None), Track(Some(1), None, None)], {})) ==
            Some(Alloc([Track(Some(0), Some(2), Some(p)), Track(Some(1), None, Some(p))], {}))
  {
    hide FirstDifference, Pool;
    var code, classes := LoadTwiceUseOnce(x, y, z), [c, c];
    var a3 := Alloc([Track(Some(0), Some(2), None), Track(Some(1), None, None)], {});
    var a2 := Alloc([Track(Some(0), Some(2), Some(p)), Track(Some(1), None, None)], {p});
    var a1 := Alloc([Track(Some(0), Some(2), Some(p)), Track(Some(1), None, Some(p))], {p});
    var a0 := Alloc(a1.tracks, {});
    assert a3.tracks[0 := a2.tracks[0]] == a2.tracks && a3.live + {p} == a2.live;
    assert a2.tracks[1 := a1.tracks[1]] == a1.tracks && a1.live - {p} == a0.live;
    assert EndRanges(classes, code[2], 2, 0, a3) == EndRanges(classes, code[2], 2, 1, a3) == Some((a3, false));
    assert StartRanges(classes, code[2], 2, 0, a3) == StartRanges(classes, code[2], 2, 1, a2) == Some(a2);
    assert EndRanges(classes, code[1], 1, 0, a2) == EndRanges(classes, code[1], 1, 1, a1) == Some((a1, false));
    assert StartRanges(classes, code[1], 1, 0, a1) == StartRanges(classes, code[1], 1, 1, a1) == Some(a1);
    assert EndRanges(classes, code[0], 0, 0, a1) == EndRanges(classes, code[0], 0, 1, a0) == Some((a0, false));
    assert StartRanges(classes, code[0], 0, 0, a0) == StartRanges(classes, code[0], 0, 1, a0) == Some(a0);
    hide EndRanges, StartRanges;
    assert Allocate(classes, code, 0, a0) == Some(a0);
    assert Allocate(classes, code, 1, a1) == Some(a0);
    assert Allocate(classes, code, 2, a2) == Some(a0);
  }

  /** The allocator accepts that code. */
  lemma {:induction false} UnreadLoadAccepted(x: nat, y: nat, z: nat, c: RegisterClass)
    ensures Allocatable(LoadTwiceUseOnce(x, y, z), 2) && AllocateRegisters(LoadTwiceUseOnce(x, y, z), [c, c]).Some?
  {
    var code := LoadTwiceUseOnce(x, y, z);
    LoadTwiceAllocatable(x, y, z);
    LoadTwiceTracks(x, y, z, c);
    ScanFindsRanges(code, 2);
    var tracks := FinalTracks(code, [c, c]);
    forall i | i in code ensures CommitOne(i, tracks).Some? {}
  }

  /** The two loads get one register, and the value that is read is lost. */
  lemma {:induction false} UnreadLoadSpoils(x: nat, y: nat, z: nat, c: RegisterClass) returns (code': Code)
    ensures var code := LoadTwiceUseOnce(x, y, z);
            && Allocatable(code, 2) && AllocateRegisters(code, [c, c]) == Some(code')
            && |code'| == 3 && (forall i <- code' :: WellShaped(i))
            && !KeepsValues(code, code', FinalTracks(code, [c, c]), [W64, W64])
  {
    var code := LoadTwiceUseOnce(x, y, z);
    LoadTwiceAllocatable(x, y, z);
    LoadTwiceTracks(x, y, z, c);
    UnreadLoadAccepted(x, y, z, c);
    hide KeepsValues, Unclashed, FinalTracks, AllocateRegisters, Allocatable, Live, Unread, First;
    code' := AllocateRegisters(code, [c, c]).value;
    assert WidthsFit(code, [W64, W64]);
    AllocationExactly(code, [c, c], [W64, W64], code');
    assert FinalTracks(code, [c, c])[0].phys == Some(FirstRegister([c, c][1]));
  }
}
