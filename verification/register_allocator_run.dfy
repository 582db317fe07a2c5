/** The register allocator as it runs: passes that update the instructions and the register
    tracker in place, each proved to compute its specification. */
module RegisterAllocatorRun {
  import opened Wrappers
  import opened RegisterCode
  import opened RegisterAllocator
  import opened LiveRanges
  import opened AllocationSemantics
  import opened DeadDefinitions

  class AllocatorRun {
    var instructions: Code
    var tracks: seq<Track>
    var live: set<nat>
    const classes: seq<RegisterClass>

    constructor (instructions: Code, classes: seq<RegisterClass>)
      ensures this.instructions == instructions && this.classes == classes && live == {}
      ensures tracks == seq(|classes|, _ => Track(None, None, None))
    {
      this.instructions, this.classes, this.live := instructions, classes, {};
      this.tracks := seq(|classes|, _ => Track(None, None, None));
    }

    /** Records the registers instruction `k` writes; a redefinition before any use kills the earlier one. */
    method RecordDefs(k: nat, operands: seq<Operand>)
      requires RangesOk(Ranges(instructions, tracks), |instructions|, |tracks|) && k < |instructions|
      requires forall o <- operands :: o.reg < |tracks|
      modifies this`instructions, this`tracks
      ensures Ranges(instructions, tracks) == DefSteps(old(Ranges(instructions, tracks)), k, operands)
    {
      ghost var r := Ranges(instructions, tracks);
      for j := 0 to |operands|
        invariant |tracks| == |r.tracks| && Ranges(instructions, tracks) == DefSteps(r, k, operands[..j])
      {
        var o := operands[j];
        assert o in operands;
        assert operands[..j + 1][..j] == operands[..j];
        var t := tracks[o.reg];
        assert t in tracks;
        if IsWrite(o) {
          if t.firstDef.None? {
            tracks := tracks[o.reg := t.(firstDef := Some(k))];
          } else if t.lastUse.None? && o.direction.Def? {
            instructions := instructions[t.firstDef.value := Instruction(Dead, [])];
            tracks := tracks[o.reg := t.(firstDef := Some(k))];
          }
        }
      }
      assert operands[..|operands|] == operands;
    }

    method RecordUses(k: nat, operands: seq<Operand>)
      requires forall o <- operands :: o.reg < |tracks|
      modifies this`tracks
      ensures tracks == UseSteps(old(tracks), k, operands)
    {
      ghost var before := tracks;
      for j := 0 to |operands|
        invariant |tracks| == |before| && tracks == UseSteps(before, k, operands[..j])
      {
        var o := operands[j];
        assert o in operands;
        assert operands[..j + 1][..j] == operands[..j];
        if IsRead(o) {
          tracks := tracks[o.reg := tracks[o.reg].(lastUse := Some(k))];
        }
      }
      assert operands[..|operands|] == operands;
    }

    /** The forward pass. */
    method CalculateLiveRanges()
      requires forall i <- instructions :: InRange(i, |classes|)
      requires tracks == seq(|classes|, _ => Track(None, None, None))
      modifies this`instructions, this`tracks
      ensures Ranges(instructions, tracks) == Scan(old(instructions), |classes|, |old(instructions)|)
    {
      ghost var code := instructions;
      for k := 0 to |instructions|
        invariant |instructions| == |code| && Ranges(instructions, tracks) == Scan(code, |classes|, k)
      {
        var operands := instructions[k].operands;
        assert instructions[k] in instructions;
        ScanStep(code, |classes|, k, Ranges(instructions, tracks));
        hide Scan, DefSteps, UseSteps;
        RecordDefs(k, operands);
        RecordUses(k, operands);
      }
    }

    /** Ends the ranges that instruction `k` starts; None is a panic, true a skipped instruction. */
    method EndRangesAt(k: nat) returns (skip: Option<bool>)
      requires |tracks| == |classes| && k < |instructions| && InRange(instructions[k], |classes|)
      modifies this`tracks, this`live
      ensures match EndRanges(classes, instructions[k], k, 0, old(Alloc(tracks, live)))
              case None => skip == None
              case Some((a, s)) => skip == Some(s) && Alloc(tracks, live) == a
    {
      var i := instructions[k];
      ghost var whole := EndRanges(classes, i, k, 0, Alloc(tracks, live));
      for j := 0 to |i.operands|
        invariant |tracks| == |classes| && EndRanges(classes, i, k, j, Alloc(tracks, live)) == whole
      {
        var o := i.operands[j];
        assert o in i.operands;
        var t := tracks[o.reg];
        if IsWrite(o) && t.firstDef == Some(k) {
          if t.lastUse.None? {
            if !i.op.Load? {
              return Some(true);
            }
            var p := FirstDifference(Pool(classes[o.reg]), {}, 0);
            if p.None? || t.phys.Some? {
              return None;
            }
            tracks := tracks[o.reg := t.(phys := p)];
          } else if t.phys.None? {
            return None;
          } else {
            live := live - {t.phys.value};
          }
        }
      }
      skip := Some(false);
    }

    method StartRangesAt(k: nat) returns (ok: bool)
      requires |tracks| == |classes| && k < |instructions| && InRange(instructions[k], |classes|)
      modifies this`tracks, this`live
      ensures match StartRanges(classes, instructions[k], k, 0, old(Alloc(tracks, live)))
              case None => !ok
              case Some(a) => ok && Alloc(tracks, live) == a
    {
      var i := instructions[k];
      ghost var whole := StartRanges(classes, i, k, 0, Alloc(tracks, live));
      for j := 0 to |i.operands|
        invariant |tracks| == |classes| && StartRanges(classes, i, k, j, Alloc(tracks, live)) == whole
      {
        var o := i.operands[j];
        assert o in i.operands;
        var t := tracks[o.reg];
        if IsRead(o) && t.lastUse == Some(k) && t.phys.None? {
          var p := FirstDifference(Pool(classes[o.reg]), live, 0);
          if p.None? {
            return false;
          }
          tracks := tracks[o.reg := t.(phys := p)];
          live := live + {p.value};
        }
      }
      ok := true;
    }

    /** The reverse pass. */
    method DoAllocate() returns (ok: bool)
      requires |tracks| == |classes| && forall i <- instructions :: InRange(i, |classes|)
      modifies this`tracks, this`live
      ensures match Allocate(classes, instructions, |instructions|, old(Alloc(tracks, live)))
              case None => !ok
              case Some(a) => ok && Alloc(tracks, live) == a
    {
      ghost var whole := Allocate(classes, instructions, |instructions|, Alloc(tracks, live));
      var k: nat := |instructions|;
      while k > 0
        invariant k <= |instructions| && |tracks| == |classes|
        invariant Allocate(classes, instructions, k, Alloc(tracks, live)) == whole
      {
        k := k - 1;
        assert instructions[k] in instructions;
        var skip := EndRangesAt(k);
        if skip.None? {
          return false;
        }
        if !skip.value {
          var started := StartRangesAt(k);
          if !started {
            return false;
          }
        }
      }
      ok := true;
    }

    /** The rewriting pass; false is a panic. */
    method CommitAll() returns (ok: bool)
      requires forall i <- instructions :: WellShaped(i)
      modifies this`instructions
      ensures match Commit(old(instructions), tracks)
              case None => !ok
              case Some(code) => ok && instructions == code
    {
      ghost var before := instructions;
      for k := 0 to |instructions|
        invariant |instructions| == |before| && instructions[k..] == before[k..]
        invariant Commit(before[..k], tracks) == Some(instructions[..k])
      {
        assert before[..k + 1][..k] == before[..k];
        assert instructions[k] == before[k] && before[k] in before;
        var i := CommitOne(instructions[k], tracks);
        if i.None? {
          return false;
        }
        instructions := instructions[k := i.value];
        assert instructions[..k + 1] == instructions[..k] + [i.value];
      }
      assert before[..|before|] == before;
      ok := true;
    }

    /** The whole allocator: it succeeds exactly when, without superseded definitions, the live registers fit
        and only loads define registers nobody reads, and it leaves the code of the specified allocation. */
    method Run() returns (ok: bool)
      requires Prunable(instructions, |classes|) && live == {}
      requires tracks == seq(|classes|, _ => Track(None, None, None))
      modifies this
      ensures var left := Pruned(old(instructions)); ok <==> Fitting(left, classes) && OnlyLoadsUnread(left)
      ensures ok ==> AllocateRegisters(old(instructions), classes) == Some(instructions)
    {
      ghost var code := instructions;
      ScanWellShaped(code, |classes|, |code|);
      AllocatesPruned(code, classes);
      AllocationSucceeds(Pruned(code), classes);
      CalculateLiveRanges();
      ok := DoAllocate();
      if ok {
        ok := CommitAll();
      }
    }
  }
}
