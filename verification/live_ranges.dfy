/** Live ranges of straight-line code, and what the forward pass of the allocator finds. */
module LiveRanges {
  import opened Wrappers
  import opened RegisterCode
  import opened RegisterAllocator

  ghost predicate Occurs(i: Instruction, v: nat) {
    exists o <- i.operands :: o.reg == v
  }

  ghost predicate ReadsReg(i: Instruction, v: nat) {
    exists o <- i.operands :: o.reg == v && IsRead(o)
  }

  ghost predicate WritesReg(i: Instruction, v: nat) {
    exists o <- i.operands :: o.reg == v && IsWrite(o)
  }

  ghost predicate OccursIn(code: Code, v: nat) {
    exists i <- code :: Occurs(i, v)
  }

  ghost function First(code: Code, v: nat): (k: nat)
    requires OccursIn(code, v)
    ensures k < |code| && Occurs(code[k], v)
    ensures forall j :: 0 <= j < k ==> !Occurs(code[j], v)
  {
    if Occurs(code[0], v) then 0
    else
      assert code == [code[0]] + code[1..];
      First(code[1..], v) + 1
  }

  ghost function Last(code: Code, v: nat): (k: nat)
    requires OccursIn(code, v)
    ensures k < |code| && Occurs(code[k], v)
    ensures forall j :: k < j < |code| ==> !Occurs(code[j], v)
  {
    var n := |code| - 1;
    if Occurs(code[n], v) then n
    else
      assert code == code[..n] + [code[n]];
      Last(code[..n], v)
  }

  /** The register holds a value just before instruction `k`. */
  ghost predicate Live(code: Code, v: nat, k: nat) {
    OccursIn(code, v) && First(code, v) < k <= Last(code, v)
  }

  /** Position `j` is the only operand of `i` that mentions its register. */
  ghost predicate Once(i: Instruction, j: nat)
    requires j < |i.operands|
  {
    forall j' :: 0 <= j' < |i.operands| && i.operands[j'].reg == i.operands[j].reg ==> j' == j
  }

  /** The register is defined and never mentioned again. */
  ghost predicate Unread(code: Code, v: nat) {
    OccursIn(code, v) && First(code, v) == Last(code, v)
  }

  /** The only registers never read are those that loads define. */
  ghost predicate OnlyLoadsUnread(code: Code) {
    forall v :: Unread(code, v) ==> code[First(code, v)].op.Load?
  }

  ghost function LastUse(code: Code, v: nat): Option<nat> {
    if OccursIn(code, v) && !Unread(code, v) then Some(Last(code, v)) else None
  }

  /** The code the allocator is made for.  Every register is born in a plain definition, is never mentioned
      again or has a last occurrence that reads it, and is only redefined after it has been read. */
  ghost predicate Allocatable(code: Code, n: nat) {
    && (forall i <- code :: InRange(i, n) && WellShaped(i))
    && (forall v :: OccursIn(code, v) ==> Unread(code, v) || ReadsReg(code[Last(code, v)], v))
    && (forall k, j :: 0 <= k < |code| && 0 <= j < |code[k].operands| ==> OperandOk(code, k, j))
  }

  ghost predicate OperandOk(code: Code, k: nat, j: nat)
    requires k < |code| && j < |code[k].operands|
  {
    var o := code[k].operands[j];
    assert code[k] in code && o in code[k].operands;
    if First(code, o.reg) == k then o.direction.Def? && Once(code[k], j)
    else o.direction.Def? ==> exists k' :: 0 <= k' < k && ReadsReg(code[k'], o.reg)
  }

  lemma {:induction false} OccursHere(code: Code, k: nat, j: nat)
    requires k < |code| && j < |code[k].operands|
    ensures var v := code[k].operands[j].reg;
            Occurs(code[k], v) && OccursIn(code, v) && First(code, v) <= k <= Last(code, v)
  {
    assert code[k].operands[j] in code[k].operands && code[k] in code;
  }

  /** What is known of register `v` after the first `k` instructions. */
  ghost predicate TrackAt(code: Code, v: nat, k: nat, t: Track) {
    && k <= |code| && t.phys.None?
    && (match t.firstDef
        case None => forall j :: 0 <= j < k ==> !Occurs(code[j], v)
        case Some(f) => OccursIn(code, v) && f == First(code, v) && f < k)
    && (match t.lastUse
        case None => forall j :: 0 <= j < k ==> !ReadsReg(code[j], v)
        case Some(l) => l < k && ReadsReg(code[l], v) && forall j :: l < j < k ==> !ReadsReg(code[j], v))
  }

  ghost predicate Wrote(operands: seq<Operand>, v: nat) {
    exists o <- operands :: o.reg == v && IsWrite(o)
  }

  ghost function Marked(t: Track, k: nat, operands: seq<Operand>, v: nat): Track {
    if t.firstDef.None? && Wrote(operands, v) then t.(firstDef := Some(k)) else t
  }

  lemma {:induction false} WroteSnoc(operands: seq<Operand>, o: Operand, v: nat)
    ensures Wrote(operands + [o], v) <==> Wrote(operands, v) || (o.reg == v && IsWrite(o))
  {
    var all := operands + [o];
    assert all[|operands|] == o;
    if Wrote(operands, v) {
      var o' :| o' in operands && o'.reg == v && IsWrite(o');
      assert o' in all;
    }
  }

  /** Operand `j` of instruction `k` either starts its register's range or finds it used already. */
  lemma {:induction false} NothingKilled(code: Code, n: nat, t: Track, k: nat, j: nat)
    requires Allocatable(code, n) && k < |code| && j < |code[k].operands|
    requires TrackAt(code, code[k].operands[j].reg, k, t)
    ensures var o := code[k].operands[j];
            !IsWrite(o) || Marked(t, k, code[k].operands[..j], o.reg).firstDef.None? || t.lastUse.Some?
                || !o.direction.Def?
  {
    var operands := code[k].operands;
    var o := operands[j];
    assert OperandOk(code, k, j);
    OccursHere(code, k, j);
  }

  lemma {:induction false} DefStepMarks(r: Ranges, k: nat, operands: seq<Operand>, o: Operand, tracks: seq<Track>)
    requires RangesOk(r, |r.code|, |tracks|) && k < |r.code| && o.reg < |tracks|
    requires forall v :: 0 <= v < |tracks| ==> r.tracks[v] == Marked(tracks[v], k, operands, v)
    requires !IsWrite(o) || r.tracks[o.reg].firstDef.None? || r.tracks[o.reg].lastUse.Some? || !o.direction.Def?
    ensures DefStep(r, k, o).code == r.code
    ensures forall v :: 0 <= v < |tracks| ==> DefStep(r, k, o).tracks[v] == Marked(tracks[v], k, operands + [o], v)
  {
    hide Wrote;
    forall v | 0 <= v < |tracks|
      ensures DefStep(r, k, o).tracks[v] == Marked(tracks[v], k, operands + [o], v)
    {
      WroteSnoc(operands, o, v);
    }
  }

  /** After the written operands among the first `j` of instruction `k`. */
  lemma {:induction false} DefStepsFind(code: Code, n: nat, r: Ranges, k: nat, j: nat)
    requires Allocatable(code, n) && k < |code| && j <= |code[k].operands|
    requires r.code == code && RangesOk(r, |code|, n)
    requires forall v :: 0 <= v < n ==> TrackAt(code, v, k, r.tracks[v])
    requires forall o <- code[k].operands :: o.reg < n
    ensures var r' := DefSteps(r, k, code[k].operands[..j]);
      && r'.code == code
      && forall v :: 0 <= v < n ==> r'.tracks[v] == Marked(r.tracks[v], k, code[k].operands[..j], v)
  {
    if j > 0 {
      hide TrackAt, Allocatable, Wrote, IsWrite;
      DefStepsFind(code, n, r, k, j - 1);
      var operands := code[k].operands;
      var o := operands[j - 1];
      assert o in operands;
      assert operands[..j] == operands[..j - 1] + [o];
      assert operands[..j][..j - 1] == operands[..j - 1];
      NothingKilled(code, n, r.tracks[o.reg], k, j - 1);
      hide DefStep;
      DefStepMarks(DefSteps(r, k, operands[..j - 1]), k, operands[..j - 1], o, r.tracks);
    }
  }

  lemma {:induction false} TracksNext(code: Code, n: nat, k: nat, r: Ranges)
    requires Allocatable(code, n) && k < |code|
    requires r.code == code && RangesOk(r, |code|, n)
    requires forall v :: 0 <= v < n ==> TrackAt(code, v, k, r.tracks[v])
    requires InRange(code[k], n)
    ensures DefSteps(r, k, code[k].operands).code == code
    ensures forall v :: 0 <= v < n ==>
      TrackAt(code, v, k + 1, UseSteps(DefSteps(r, k, code[k].operands).tracks, k, code[k].operands)[v])
  {
    var i := code[k];
    DefStepsFind(code, n, r, k, |i.operands|);
    assert i.operands[..|i.operands|] == i.operands;
    var r' := DefSteps(r, k, i.operands);
    var tracks := UseSteps(r'.tracks, k, i.operands);
    forall v | 0 <= v < n ensures TrackAt(code, v, k + 1, tracks[v]) {
      assert Wrote(i.operands, v) == WritesReg(i, v);
      TrackNext(code, n, k, v, r.tracks[v], r'.tracks[v], tracks[v]);
    }
  }

  lemma {:induction false} ScanStart(code: Code, n: nat)
    requires forall i <- code :: InRange(i, n)
    ensures var r := Scan(code, n, 0); r.code == code && forall v :: 0 <= v < n ==> TrackAt(code, v, 0, r.tracks[v])
  {}

  lemma {:induction false} ScanFinds(code: Code, n: nat, k: nat)
    requires Allocatable(code, n) && k <= |code|
    ensures var r := Scan(code, n, k); r.code == code && forall v :: 0 <= v < n ==> TrackAt(code, v, k, r.tracks[v])
  {
    hide TrackAt, DefSteps, UseSteps, Scan, InRange, OperandOk;
    if k == 0 {
      ScanStart(code, n);
    } else {
      ScanFinds(code, n, k - 1);
      var r := Scan(code, n, k - 1);
      assert code[k - 1] in code;
      TracksNext(code, n, k - 1, r);
      ScanStep(code, n, k - 1, r);
    }
  }

  lemma {:induction false} TrackNext(code: Code, n: nat, k: nat, v: nat, t: Track, t1: Track, t2: Track)
    requires Allocatable(code, n) && k < |code| && TrackAt(code, v, k, t)
    requires t1 == if t.firstDef.None? && WritesReg(code[k], v) then t.(firstDef := Some(k)) else t
    requires t2 == if ReadsReg(code[k], v) then t1.(lastUse := Some(k)) else t1
    ensures TrackAt(code, v, k + 1, t2)
  {
    if t.firstDef.None? && Occurs(code[k], v) {
      var j :| 0 <= j < |code[k].operands| && code[k].operands[j].reg == v;
      OccursHere(code, k, j);
      assert First(code, v) == k;
      assert OperandOk(code, k, j);
      assert code[k].operands[j] in code[k].operands;
    }
  }

  /** What is known of a register after all instructions is its first and last occurrence. */
  lemma {:induction false} TrackIsRange(code: Code, n: nat, v: nat, t: Track)
    requires Allocatable(code, n) && TrackAt(code, v, |code|, t)
    ensures t == Track(if OccursIn(code, v) then Some(First(code, v)) else None, LastUse(code, v), None)
  {
    if OccursIn(code, v) {
      assert Occurs(code[First(code, v)], v);
      BornUnread(code, n, v);
    }
    if t.lastUse.Some? {
      assert Occurs(code[t.lastUse.value], v);
    }
  }

  /** The instruction a range starts at does not read the register. */
  lemma {:induction false} BornUnread(code: Code, n: nat, v: nat)
    requires Allocatable(code, n) && OccursIn(code, v)
    ensures !ReadsReg(code[First(code, v)], v)
  {
    var k := First(code, v);
    forall j | 0 <= j < |code[k].operands| && code[k].operands[j].reg == v
      ensures !IsRead(code[k].operands[j])
    {
      assert OperandOk(code, k, j);
    }
  }

  /** The forward pass leaves the code alone and finds exactly the first and last occurrences. */
  lemma {:induction false} ScanFindsRanges(code: Code, n: nat)
    requires Allocatable(code, n)
    ensures Scan(code, n, |code|).code == code
    ensures forall v :: 0 <= v < n ==>
      Scan(code, n, |code|).tracks[v] ==
        Track(if OccursIn(code, v) then Some(First(code, v)) else None, LastUse(code, v), None)
  {
    ScanFinds(code, n, |code|);
    hide TrackAt, OccursIn;
    var tracks := Scan(code, n, |code|).tracks;
    forall v | 0 <= v < n
      ensures tracks[v] == Track(if OccursIn(code, v) then Some(First(code, v)) else None, LastUse(code, v), None)
    {
      TrackIsRange(code, n, v, tracks[v]);
    }
  }
}
