/** What the forward pass of the allocator deletes: definitions that are replaced before anything reads them. */
module DeadDefinitions {
  import opened Wrappers
  import opened Widths
  import opened RegisterCode
  import opened RegisterAllocator
  import opened LiveRanges

  ghost predicate Defines(i: Instruction, v: nat) {
    exists o <- i.operands :: o.reg == v && o.direction.Def?
  }

  /** Instruction `k` defines register `v` anew, which `f` wrote last and nothing has read yet. */
  ghost predicate Supersedes(code: Code, f: nat, k: nat, v: nat) {
    && f < k < |code| && WritesReg(code[f], v) && Defines(code[k], v)
    && (forall j :: 0 <= j < k ==> !ReadsReg(code[j], v))
    && (forall j :: f < j < k ==> !WritesReg(code[j], v))
  }

  /** An instruction before `k` supersedes instruction `f`. */
  ghost predicate Superseded(code: Code, f: nat, k: nat) {
    exists m: nat, v: nat :: m < k && Supersedes(code, f, m, v)
  }

  /** The code without the instructions superseded before `k`. */
  ghost function PrunedTo(code: Code, k: nat): (r: Code)
    ensures |r| == |code|
  {
    seq(|code|, f requires 0 <= f < |code| => if Superseded(code, f, k) then Instruction(Dead, []) else code[f])
  }

  ghost function Pruned(code: Code): (r: Code)
    ensures |r| == |code|
  {
    PrunedTo(code, |code|)
  }

  /** Deleting instruction `f` is all about the one register it defines: what it reads is live around it. */
  ghost predicate SafelyDead(code: Code, f: nat)
    requires f < |code|
  {
    && (forall j, j' :: 0 <= j < j' < |code[f].operands| && IsWrite(code[f].operands[j]) ==>
         !IsWrite(code[f].operands[j']))
    && (forall j :: 0 <= j < |code[f].operands| && IsWrite(code[f].operands[j]) ==>
          code[f].operands[j].direction.Def? && Once(code[f], j))
    && (forall u :: ReadsReg(code[f], u) ==>
          OccursIn(Pruned(code), u) && First(Pruned(code), u) < f < Last(Pruned(code), u))
  }

  /** Code that can be allocated once its superseded definitions are gone. */
  ghost predicate Prunable(code: Code, n: nat) {
    && (forall i <- code :: InRange(i, n) && WellShaped(i))
    && Allocatable(Pruned(code), n)
    && forall f :: 0 <= f < |code| && Superseded(code, f, |code|) ==> SafelyDead(code, f)
  }

  /** An instruction that is left is the one it was. */
  lemma {:induction false} LeftAlone(code: Code, j: nat, v: nat)
    requires j < |code| && Occurs(Pruned(code)[j], v)
    ensures Pruned(code)[j] == code[j] && !Superseded(code, j, |code|)
  {}

  /** What is read has been defined by an instruction that is left. */
  lemma {:induction false} ReadAfterBirth(code: Code, n: nat, j: nat, v: nat)
    requires Prunable(code, n) && j < |code| && ReadsReg(code[j], v)
    ensures OccursIn(Pruned(code), v) && First(Pruned(code), v) < j
  {
    var p := Pruned(code);
    if !Superseded(code, j, |code|) {
      assert p[j] == code[j] && p[j] in p;
      assert Occurs(p[j], v) && OccursIn(p, v);
      BornUnread(p, n, v);
    }
  }

  /** A definition that is left is the first of its register or comes after a read. */
  lemma {:induction false} LeftDefinition(code: Code, n: nat, k: nat, j: nat)
    requires Prunable(code, n) && k < |code| && j < |code[k].operands| && code[k].operands[j].direction.Def?
    requires !Superseded(code, k, |code|)
    ensures var v := code[k].operands[j].reg;
            && OccursIn(Pruned(code), v) && First(Pruned(code), v) <= k
            && if First(Pruned(code), v) == k then Once(code[k], j) else exists m :: 0 <= m < k && ReadsReg(code[m], v)
  {
    var p, v := Pruned(code), code[k].operands[j].reg;
    assert p[k] == code[k];
    OccursHere(p, k, j);
    assert OperandOk(p, k, j);
    if First(p, v) != k {
      var m :| 0 <= m < k && ReadsReg(p[m], v);
      assert Occurs(p[m], v);
      LeftAlone(code, m, v);
    }
  }

  /** What the forward pass knows of register `v` after the first `k` instructions. */
  ghost predicate Traced(code: Code, v: nat, k: nat, t: Track) {
    && k <= |code| && t.phys.None?
    && (match t.lastUse
        case None => forall j :: 0 <= j < k ==> !ReadsReg(code[j], v)
        case Some(l) => l < k && ReadsReg(code[l], v) && forall j :: l < j < k ==> !ReadsReg(code[j], v))
    && (match t.firstDef
        case None => forall j :: 0 <= j < k ==> !WritesReg(code[j], v)
        case Some(f) =>
          && f < k && WritesReg(code[f], v)
          && if t.lastUse.Some? then OccursIn(Pruned(code), v) && f == First(Pruned(code), v)
             else forall j :: f < j < k ==> !WritesReg(code[j], v))
  }

  /** An unread register is only ever defined, once by each instruction. */
  lemma {:induction false} DefinedOnce(code: Code, n: nat, k: nat, j: nat)
    requires Prunable(code, n) && k < |code| && j < |code[k].operands| && code[k].operands[j].direction.Def?
    requires forall m :: 0 <= m < k ==> !ReadsReg(code[m], code[k].operands[j].reg)
    ensures Once(code[k], j)
  {
    if Superseded(code, k, |code|) {
      assert SafelyDead(code, k);
    } else {
      LeftDefinition(code, n, k, j);
    }
  }

  ghost predicate DefinedIn(operands: seq<Operand>, v: nat) {
    exists o <- operands :: o.reg == v && o.direction.Def?
  }

  lemma {:induction false} DefinedSnoc(operands: seq<Operand>, o: Operand, v: nat)
    ensures DefinedIn(operands + [o], v) <==> DefinedIn(operands, v) || (o.reg == v && o.direction.Def?)
  {
    var all := operands + [o];
    assert all[|operands|] == o;
    if DefinedIn(operands, v) {
      var o' :| o' in operands && o'.reg == v && o'.direction.Def?;
      assert o' in all;
    }
  }

  /** The track of `v` once instruction `k` has written `operands`. */
  ghost function Remarked(t: Track, k: nat, operands: seq<Operand>, v: nat): Track {
    if (t.firstDef.None? && Wrote(operands, v)) || (t.lastUse.None? && DefinedIn(operands, v))
    then t.(firstDef := Some(k)) else t
  }

  /** Writing `operands` replaces a definition at `f` that nothing has read. */
  ghost predicate Killed(tracks: seq<Track>, operands: seq<Operand>, f: nat) {
    exists v :: 0 <= v < |tracks| && tracks[v].firstDef == Some(f) && tracks[v].lastUse.None? && DefinedIn(operands, v)
  }

  /** `r1` is `r` once instruction `k` has written `operands`. */
  ghost predicate Written(r: Ranges, r1: Ranges, k: nat, operands: seq<Operand>) {
    && |r1.code| == |r.code| && |r1.tracks| == |r.tracks|
    && (forall f :: 0 <= f < |r.code| ==>
          r1.code[f] == if Killed(r.tracks, operands, f) then Instruction(Dead, []) else r.code[f])
    && forall v :: 0 <= v < |r.tracks| ==> r1.tracks[v] == Remarked(r.tracks[v], k, operands, v)
  }

  /** A plain definition of a register nothing has read. */
  lemma {:induction false} WriteKills(r: Ranges, r1: Ranges, k: nat, operands: seq<Operand>, o: Operand)
    requires RangesOk(r1, |r1.code|, |r1.tracks|) && k < |r1.code| && o.reg < |r1.tracks| && Written(r, r1, k, operands)
    requires o.direction.Def? && r.tracks[o.reg].lastUse.None? && r.tracks[o.reg].firstDef.Some?
    requires !Wrote(operands, o.reg) && !DefinedIn(operands, o.reg)
    ensures Written(r, DefStep(r1, k, o), k, operands + [o])
  {
    var r2 := DefStep(r1, k, o);
    assert r1.tracks[o.reg] in r1.tracks;
    forall v | 0 <= v < |r.tracks|
      ensures r2.tracks[v] == Remarked(r.tracks[v], k, operands + [o], v)
      ensures DefinedIn(operands + [o], v) <==> DefinedIn(operands, v) || v == o.reg
    {
      WroteSnoc(operands, o, v);
      DefinedSnoc(operands, o, v);
    }
    hide DefinedIn, Wrote;
    forall f | 0 <= f < |r.code|
      ensures Killed(r.tracks, operands + [o], f) <==>
                Killed(r.tracks, operands, f) || r.tracks[o.reg].firstDef == Some(f)
    {}
  }

  /** Any other operand. */
  lemma {:induction false} WriteKeeps(r: Ranges, r1: Ranges, k: nat, operands: seq<Operand>, o: Operand)
    requires RangesOk(r1, |r1.code|, |r1.tracks|) && k < |r1.code| && o.reg < |r1.tracks| && Written(r, r1, k, operands)
    requires o.direction.Def? ==>
               r.tracks[o.reg].lastUse.Some? || (r.tracks[o.reg].firstDef.None? && !Wrote(operands, o.reg))
    ensures Written(r, DefStep(r1, k, o), k, operands + [o])
  {
    var r2 := DefStep(r1, k, o);
    forall v | 0 <= v < |r.tracks|
      ensures r2.tracks[v] == Remarked(r.tracks[v], k, operands + [o], v)
      ensures DefinedIn(operands + [o], v) <==> DefinedIn(operands, v) || (v == o.reg && o.direction.Def?)
    {
      WroteSnoc(operands, o, v);
      DefinedSnoc(operands, o, v);
    }
    hide DefinedIn, Wrote;
    forall f | 0 <= f < |r.code|
      ensures Killed(r.tracks, operands + [o], f) <==> Killed(r.tracks, operands, f)
    {}
  }

  lemma {:induction false} NotInPrefix(i: Instruction, j: nat)
    requires j < |i.operands| && Once(i, j)
    ensures !Wrote(i.operands[..j], i.operands[j].reg) && !DefinedIn(i.operands[..j], i.operands[j].reg)
  {}

  /** After the written operands among the first `j` of instruction `k`. */
  lemma {:induction false} DefStepsTrace(code: Code, n: nat, r: Ranges, k: nat, j: nat)
    requires Prunable(code, n) && k < |code| && j <= |code[k].operands| && |r.code| == |code|
    requires RangesOk(r, |code|, n) && forall o <- code[k].operands :: o.reg < n
    requires forall v :: 0 <= v < n ==> Traced(code, v, k, r.tracks[v])
    ensures Written(r, DefSteps(r, k, code[k].operands[..j]), k, code[k].operands[..j])
  {
    hide Prunable, Wrote, DefinedIn;
    var operands := code[k].operands;
    if j > 0 {
      DefStepsTrace(code, n, r, k, j - 1);
      var o, init := operands[j - 1], operands[..j - 1];
      assert o in operands;
      assert operands[..j] == init + [o] && operands[..j][..j - 1] == init;
      var t := r.tracks[o.reg];
      assert Traced(code, o.reg, k, t);
      if o.direction.Def? && t.lastUse.None? {
        DefinedOnce(code, n, k, j - 1);
        NotInPrefix(code[k], j - 1);
      }
      hide Traced, Written, DefStep;
      if o.direction.Def? && t.lastUse.None? && t.firstDef.Some? {
        WriteKills(r, DefSteps(r, k, init), k, init, o);
      } else {
        WriteKeeps(r, DefSteps(r, k, init), k, init, o);
      }
    } else {
      assert operands[..0] == [];
      NothingWritten(r, k);
    }
  }

  lemma {:induction false} NothingWritten(r: Ranges, k: nat)
    ensures Written(r, r, k, [])
  {}

  /** Where a register is read for the first time, the definition that is left is the one before. */
  lemma {:induction false} FirstRead(code: Code, n: nat, k: nat, v: nat, f: nat)
    requires Prunable(code, n) && k < |code| && ReadsReg(code[k], v)
    requires forall j :: 0 <= j < k ==> !ReadsReg(code[j], v)
    requires f < k && WritesReg(code[f], v) && forall j :: f < j < k ==> !WritesReg(code[j], v)
    ensures !Defines(code[k], v) && OccursIn(Pruned(code), v) && First(Pruned(code), v) == f
  {
    var p := Pruned(code);
    ReadAfterBirth(code, n, k, v);
    NoDefinition(code, n, k, v);
    var j :| 0 <= j < |code[f].operands| && code[f].operands[j].reg == v && IsWrite(code[f].operands[j]);
    assert !IsRead(code[f].operands[j]);
    NotSuperseded(code, n, f, k, v);
    LeftDefinition(code, n, f, j);
  }

  lemma {:induction false} NoDefinition(code: Code, n: nat, k: nat, v: nat)
    requires Prunable(code, n) && k < |code| && ReadsReg(code[k], v)
    requires forall j :: 0 <= j < k ==> !ReadsReg(code[j], v)
    ensures !Defines(code[k], v)
  {
    var m :| 0 <= m < |code[k].operands| && code[k].operands[m].reg == v && IsRead(code[k].operands[m]);
    forall j | 0 <= j < |code[k].operands| && code[k].operands[j].reg == v
      ensures !code[k].operands[j].direction.Def?
    {
      if code[k].operands[j].direction.Def? {
        DefinedOnce(code, n, k, j);
      }
    }
  }

  /** The last write before the first read is not superseded. */
  lemma {:induction false} NotSuperseded(code: Code, n: nat, f: nat, k: nat, v: nat)
    requires Prunable(code, n) && f < k < |code| && WritesReg(code[f], v) && ReadsReg(code[k], v)
               && !Defines(code[k], v)
    requires forall j :: f < j < k ==> !WritesReg(code[j], v)
    ensures !Superseded(code, f, |code|)
  {
    forall m: nat, u: nat | Supersedes(code, f, m, u) && m < |code|
      ensures u != v
    {
      if u == v {
        assert m <= k;
        assert WritesReg(code[m], v);
      }
    }
    if Superseded(code, f, |code|) {
      var m: nat, u: nat :| m < |code| && Supersedes(code, f, m, u);
      assert SafelyDead(code, f);
      OneWritten(code, f, u, v);
    }
  }

  lemma {:induction false} OneWritten(code: Code, f: nat, u: nat, v: nat)
    requires f < |code| && SafelyDead(code, f) && WritesReg(code[f], u) && WritesReg(code[f], v)
    ensures u == v
  {
    var j :| 0 <= j < |code[f].operands| && code[f].operands[j].reg == u && IsWrite(code[f].operands[j]);
    var j' :| 0 <= j' < |code[f].operands| && code[f].operands[j'].reg == v && IsWrite(code[f].operands[j']);
  }

  /** Instruction `k` keeps what the forward pass knows of a register. */
  lemma {:induction false} TraceNext(code: Code, n: nat, k: nat, v: nat, t: Track)
    requires Prunable(code, n) && k < |code| && Traced(code, v, k, t)
    ensures var t1 := Remarked(t, k, code[k].operands, v);
            Traced(code, v, k + 1, if ReadsReg(code[k], v) then t1.(lastUse := Some(k)) else t1)
  {
    assert Wrote(code[k].operands, v) == WritesReg(code[k], v);
    assert DefinedIn(code[k].operands, v) == Defines(code[k], v);
    PlainWrite(code[k], v);
    if t.lastUse.Some? {
      ReadAfterBirth(code, n, t.lastUse.value, v);
      WrittenAtBirth(code, n, v);
    } else if ReadsReg(code[k], v) {
      ReadAfterBirth(code, n, k, v);
      WrittenAtBirth(code, n, v);
      FirstRead(code, n, k, v, t.firstDef.value);
    }
    hide Prunable, Pruned, ReadsReg, WritesReg, Wrote, DefinedIn, Defines;
  }

  lemma {:induction false} PlainWrite(i: Instruction, v: nat)
    ensures Defines(i, v) ==> WritesReg(i, v)
    ensures WritesReg(i, v) && !ReadsReg(i, v) ==> Defines(i, v)
  {}

  lemma {:induction false} WrittenAtBirth(code: Code, n: nat, v: nat)
    requires Prunable(code, n) && OccursIn(Pruned(code), v)
    ensures WritesReg(code[First(Pruned(code), v)], v)
  {
    var p := Pruned(code);
    var k := First(p, v);
    LeftAlone(code, k, v);
    var j :| 0 <= j < |p[k].operands| && p[k].operands[j].reg == v;
    assert OperandOk(p, k, j);
    assert p[k].operands[j] in p[k].operands;
  }

  /** Instruction `k` deletes exactly the instructions that it supersedes. */
  lemma {:induction false} KillsSuperseded(code: Code, n: nat, k: nat, tracks: seq<Track>, f: nat)
    requires k < |code| && f < |code| && |tracks| == n && InRange(code[k], n)
    requires forall v :: 0 <= v < n ==> Traced(code, v, k, tracks[v])
    ensures Superseded(code, f, k + 1) <==> Superseded(code, f, k) || Killed(tracks, code[k].operands, f)
  {
    forall v: nat ensures DefinedIn(code[k].operands, v) == Defines(code[k], v) ensures Defines(code[k], v) ==> v < n {}
    hide Defines, DefinedIn;
    if Killed(tracks, code[k].operands, f) {
      var v :| 0 <= v < |tracks| && tracks[v].firstDef == Some(f) && tracks[v].lastUse.None?
          && DefinedIn(code[k].operands, v);
      assert Supersedes(code, f, k, v);
    }
    if Superseded(code, f, k) {
      var m: nat, v: nat :| m < k && Supersedes(code, f, m, v);
    }
    if Superseded(code, f, k + 1) && !Superseded(code, f, k) {
      var m: nat, v: nat :| m < k + 1 && Supersedes(code, f, m, v);
      assert m == k;
      LastWrite(code, f, k, v, tracks[v]);
    }
  }

  lemma {:induction false} LastWrite(code: Code, f: nat, k: nat, v: nat, t: Track)
    requires Supersedes(code, f, k, v) && Traced(code, v, k, t)
    ensures t.firstDef == Some(f) && t.lastUse.None?
  {}

  lemma {:induction false} TracedNext(code: Code, n: nat, k: nat, r: Ranges)
    requires Prunable(code, n) && k < |code| && r.code == PrunedTo(code, k) && RangesOk(r, |code|, n)
               && InRange(code[k], n)
    requires forall v :: 0 <= v < n ==> Traced(code, v, k, r.tracks[v])
    ensures var r' := DefSteps(r, k, code[k].operands);
            && r'.code == PrunedTo(code, k + 1)
            && forall v :: 0 <= v < n ==> Traced(code, v, k + 1, UseSteps(r'.tracks, k, code[k].operands)[v])
  {
    var i := code[k];
    DefStepsTrace(code, n, r, k, |i.operands|);
    assert i.operands[..|i.operands|] == i.operands;
    var r' := DefSteps(r, k, i.operands);
    hide DefSteps, Killed, Superseded;
    forall f | 0 <= f < |code|
      ensures r'.code[f] == PrunedTo(code, k + 1)[f]
    {
      KillsSuperseded(code, n, k, r.tracks, f);
    }
    hide Traced, Remarked;
    forall v | 0 <= v < n
      ensures Traced(code, v, k + 1, UseSteps(r'.tracks, k, i.operands)[v])
    {
      TraceNext(code, n, k, v, r.tracks[v]);
    }
  }

  lemma {:induction false} ScanTraces(code: Code, n: nat, k: nat)
    requires Prunable(code, n) && k <= |code|
    ensures var r := Scan(code, n, k);
            r.code == PrunedTo(code, k) && forall v :: 0 <= v < n ==> Traced(code, v, k, r.tracks[v])
  {
    hide InRange, WellShaped, Allocatable, SafelyDead;
    if k == 0 {
      assert PrunedTo(code, 0) == code;
    } else {
      ScanTraces(code, n, k - 1);
      var r := Scan(code, n, k - 1);
      assert code[k - 1] in code;
      assert r.code[k - 1] == code[k - 1];
      hide Traced, Scan, DefSteps, UseSteps;
      TracedNext(code, n, k - 1, r);
      ScanStep(code, n, k - 1, r);
    }
  }

  /** The last read of a register is left. */
  lemma {:induction false} ReadLast(code: Code, n: nat, v: nat, l: nat)
    requires Prunable(code, n) && l < |code| && ReadsReg(code[l], v)
    requires forall j :: l < j < |code| ==> !ReadsReg(code[j], v)
    ensures LastUse(Pruned(code), v) == Some(l)
  {
    var p := Pruned(code);
    ReadAfterBirth(code, n, l, v);
    var last := Last(p, v);
    LeftAlone(code, last, v);
    if !Superseded(code, l, |code|) {
      assert Occurs(p[l], v);
    }
    assert First(p, v) < l <= last;
    assert ReadsReg(p[last], v);
  }

  lemma {:induction false} UnreadLast(code: Code, n: nat, v: nat, f: nat)
    requires Prunable(code, n) && f < |code| && WritesReg(code[f], v)
    requires forall j :: 0 <= j < |code| ==> !ReadsReg(code[j], v)
    requires forall j :: f < j < |code| ==> !WritesReg(code[j], v)
    ensures Unread(Pruned(code), v) && First(Pruned(code), v) == f
  {
    var p := Pruned(code);
    var j :| 0 <= j < |code[f].operands| && code[f].operands[j].reg == v && IsWrite(code[f].operands[j]);
    assert !IsRead(code[f].operands[j]);
    NeverSuperseded(code, n, f, v);
    LeftDefinition(code, n, f, j);
    var last := Last(p, v);
    LeftAlone(code, last, v);
    var m :| 0 <= m < |code[last].operands| && code[last].operands[m].reg == v;
    assert IsRead(code[last].operands[m]) || IsWrite(code[last].operands[m]);
  }

  lemma {:induction false} NeverSuperseded(code: Code, n: nat, f: nat, v: nat)
    requires Prunable(code, n) && f < |code| && WritesReg(code[f], v)
    requires forall j :: f < j < |code| ==> !WritesReg(code[j], v)
    ensures !Superseded(code, f, |code|)
  {
    forall m: nat, u: nat | Supersedes(code, f, m, u) && m < |code|
      ensures u != v
    {
      PlainWrite(code[m], u);
    }
    if Superseded(code, f, |code|) {
      var m: nat, u: nat :| m < |code| && Supersedes(code, f, m, u);
      assert SafelyDead(code, f);
      OneWritten(code, f, u, v);
    }
  }

  lemma {:induction false} TracedRange(code: Code, n: nat, v: nat, t: Track)
    requires Prunable(code, n) && Traced(code, v, |code|, t)
    ensures var p := Pruned(code);
            t == Track(if OccursIn(p, v) then Some(First(p, v)) else None, LastUse(p, v), None)
  {
    var p := Pruned(code);
    if t.lastUse.Some? {
      ReadLast(code, n, v, t.lastUse.value);
      WrittenAtBirth(code, n, v);
    } else if t.firstDef.Some? {
      UnreadLast(code, n, v, t.firstDef.value);
    } else {
      NeverOccurs(code, v);
    }
  }

  lemma {:induction false} NeverOccurs(code: Code, v: nat)
    requires forall j :: 0 <= j < |code| ==> !ReadsReg(code[j], v) && !WritesReg(code[j], v)
    ensures !OccursIn(Pruned(code), v)
  {
    var p := Pruned(code);
    forall j | 0 <= j < |p| ensures !Occurs(p[j], v) {
      forall o | o in code[j].operands ensures o.reg != v {
        assert IsRead(o) || IsWrite(o);
      }
    }
  }

  /** The forward pass deletes exactly the superseded definitions, and finds the ranges of what is left. */
  lemma {:induction false} ScanPrunes(code: Code, n: nat)
    requires Prunable(code, n)
    ensures Scan(code, n, |code|) == Scan(Pruned(code), n, |code|) && Scan(code, n, |code|).code == Pruned(code)
  {
    ScanTraces(code, n, |code|);
    ScanFindsRanges(Pruned(code), n);
    var tracks, tracks' := Scan(code, n, |code|).tracks, Scan(Pruned(code), n, |code|).tracks;
    hide Scan, Traced, LastUse, OccursIn, Prunable;
    forall v | 0 <= v < n ensures tracks[v] == tracks'[v] {
      TracedRange(code, n, v, tracks[v]);
    }
    assert tracks == tracks';
  }

  /** The allocator makes of a program what it makes of it without its superseded definitions. */
  lemma {:induction false} AllocatesPruned(code: Code, classes: seq<RegisterClass>)
    requires Prunable(code, |classes|)
    ensures AllocateRegisters(code, classes) == AllocateRegisters(Pruned(code), classes)
  {
    ScanPrunes(code, |classes|);
    hide Scan, Allocate, Commit, Prunable, InRange, WellShaped;
  }

  /** Code in which nothing is redefined before it is read stays as it is. */
  lemma {:induction false} NothingPruned(code: Code, n: nat)
    requires Allocatable(code, n)
    ensures Prunable(code, n) && Pruned(code) == code
  {
    forall f: nat, m: nat, v: nat | m < |code|
      ensures !Supersedes(code, f, m, v)
    {
      if f < m && Occurs(code[f], v) && Defines(code[m], v) {
        var j :| 0 <= j < |code[m].operands| && code[m].operands[j].reg == v && code[m].operands[j].direction.Def?;
        OccursHere(code, m, j);
        assert OperandOk(code, m, j);
      }
    }
    assert Pruned(code) == code;
  }

  /** A load, an instruction that reads it and defines its register anew, and a use of that. */
  function ReadAndRedefine(x: nat, y: nat, z: nat): Code {
    [Instruction(Load(x), [Operand(Def, 0, W64)]),
     Instruction(Other(y), [Operand(Use, 0, W64), Operand(Def, 0, W64)]),
     Instruction(Other(z), [Operand(Use, 0, W64)])]
  }

  lemma {:induction false} ScanOne(code: Code, k: nat, r: Ranges, defined: Ranges, tracks: seq<Track>)
    requires k < |code| && (forall i <- code :: InRange(i, 1)) && Scan(code, 1, k) == r && InRange(r.code[k], 1)
    requires DefSteps(r, k, r.code[k].operands) == defined && UseSteps(defined.tracks, k, r.code[k].operands) == tracks
    ensures Scan(code, 1, k + 1) == defined.(tracks := tracks)
  {
    hide Scan, DefSteps, UseSteps;
    ScanStep(code, 1, k, r);
  }

  lemma {:induction false} OneOperand(r: Ranges, k: nat, o: Operand)
    requires RangesOk(r, |r.code|, |r.tracks|) && k < |r.code| && o.reg < |r.tracks|
    ensures DefSteps(r, k, [o]) == DefStep(r, k, o)
  {
    assert [o][..0] == [];
  }

  lemma {:induction false} OneUse(tracks: seq<Track>, k: nat, o: Operand)
    requires |tracks| == 1 && o.reg == 0
    ensures UseSteps(tracks, k, [o]) == [if IsRead(o) then tracks[0].(lastUse := Some(k)) else tracks[0]]
  {
    assert o in [o];
  }

  lemma {:induction false} DeletesRead(r: Ranges, left: Code, operands: seq<Operand>)
    requires operands == [Operand(Use, 0, W64), Operand(Def, 0, W64)] && |r.code| == 3 && RangesOk(r, 3, 1)
    requires r.tracks == [Track(Some(0), None, None)] && left == r.code[0 := Instruction(Dead, [])]
    ensures DefSteps(r, 1, operands) == Ranges(left, [Track(Some(1), None, None)])
    ensures UseSteps([Track(Some(1), None, None)], 1, operands) == [Track(Some(1), Some(1), None)]
  {
    assert operands[..1] == [operands[0]];
    OneOperand(r, 1, operands[0]);
    assert operands[0] in operands;
  }

  lemma {:induction false} ReadAndRedefineInRange(x: nat, y: nat, z: nat)
    ensures forall i <- ReadAndRedefine(x, y, z) :: InRange(i, 1) && WellShaped(i)
  {}

  /** Since definitions are looked at before uses, the forward pass deletes the load although it is read. */
  lemma {:induction false} ReadDefinitionDeleted(x: nat, y: nat, z: nat)
    ensures var code := ReadAndRedefine(x, y, z);
            && (forall i <- code :: InRange(i, 1) && WellShaped(i))
            && Scan(code, 1, 3) == Ranges([Instruction(Dead, []), code[1], code[2]], [Track(Some(1), Some(2), None)])
  {
    ReadAndRedefineInRange(x, y, z);
    var code := ReadAndRedefine(x, y, z);
    var left := [Instruction(Dead, []), code[1], code[2]];
    var r0 := Ranges(code, [Track(None, None, None)]);
    var r1 := Ranges(code, [Track(Some(0), None, None)]);
    var r2 := Ranges(left, [Track(Some(1), Some(1), None)]);
    assert Scan(code, 1, 0) == r0 && code[0] in code && code[1] in code && code[2] in code;
    hide Scan, DefSteps, InRange, WellShaped;
    OneOperand(r0, 0, code[0].operands[0]);
    OneUse(r1.tracks, 0, code[0].operands[0]);
    hide UseSteps;
    ScanOne(code, 0, r0, r1, r1.tracks);
    assert left == code[0 := Instruction(Dead, [])];
    DeletesRead(r1, left, code[1].operands);
    ScanOne(code, 1, r1, Ranges(left, [Track(Some(1), None, None)]), r2.tracks);
    OneOperand(r2, 2, code[2].operands[0]);
    OneUse(r2.tracks, 2, code[2].operands[0]);
    ScanOne(code, 2, r2, r2, [Track(Some(1), Some(2), None)]);
  }
}
