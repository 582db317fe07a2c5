/** The invariant of the allocator's reverse scan: the live set is exactly the registers of the
    virtual registers live at that point, and registers live together are apart. */
module AllocationInvariant {
  import opened Wrappers
  import opened RegisterCode
  import opened RegisterAllocator

  /** The range of `t` spans the point just before instruction `k`. */
  predicate Spans(t: Track, k: nat) {
    t.firstDef.Some? && t.lastUse.Some? && t.firstDef.value < k <= t.lastUse.value
  }

  /** The register of `t` is defined and never read. */
  predicate Idle(t: Track) {
    t.firstDef.Some? && t.lastUse.None?
  }

  /** The reverse scan down to `k` has met the register of `t`. */
  predicate Met(t: Track, k: nat) {
    match t.lastUse
    case Some(last) => k <= last
    case None => t.firstDef.Some? && k <= t.firstDef.value
  }

  /** Operand `j` of instruction `k` agrees with the range of its register: the operand that starts the
      range is a plain definition and the only one of its instruction to mention the register, and only a
      load defines a register nobody reads. */
  ghost predicate OperandFits(ranges: seq<Track>, i: Instruction, k: nat, j: nat)
    requires j < |i.operands|
  {
    var o := i.operands[j];
    && o.reg < |ranges|
    && var t := ranges[o.reg];
       && t.firstDef.Some? && t.firstDef.value <= k
       && (if t.lastUse.Some? then k <= t.lastUse.value else t.firstDef == Some(k) && i.op.Load?)
       && (t.firstDef.value == k ==>
             o.direction.Def? && forall j' :: 0 <= j' < |i.operands| && i.operands[j'].reg == o.reg ==> j' == j)
  }

  /** Instruction `k` agrees with the ranges: it mentions only registers whose range it is in, defines
      those whose range it starts and reads those whose range it ends. */
  ghost predicate InstructionFits(ranges: seq<Track>, i: Instruction, k: nat) {
    && (forall j :: 0 <= j < |i.operands| ==> OperandFits(ranges, i, k, j))
    && (forall v :: 0 <= v < |ranges| && ranges[v].firstDef == Some(k) ==>
         exists j :: 0 <= j < |i.operands| && i.operands[j].reg == v)
    && (forall v :: 0 <= v < |ranges| && ranges[v].lastUse == Some(k) ==>
          exists j :: 0 <= j < |i.operands| && i.operands[j].reg == v && IsRead(i.operands[j]))
  }

  ghost predicate RangesFit(ranges: seq<Track>, code: Code) {
    && (forall k :: 0 <= k < |code| ==> InstructionFits(ranges, code[k], k))
    && (forall v :: 0 <= v < |ranges| ==>
          && ranges[v].phys.None?
          && (ranges[v].firstDef.Some? ==> ranges[v].firstDef.value < |code|)
          && (ranges[v].lastUse.Some? ==>
                ranges[v].firstDef.Some? && ranges[v].firstDef.value < ranges[v].lastUse.value < |code|))
  }

  ghost function LiveSet(ranges: seq<Track>, classes: seq<RegisterClass>, c: RegisterClass, k: nat): set<nat>
    requires |ranges| == |classes|
  {
    set v | 0 <= v < |classes| && classes[v] == c && Spans(ranges[v], k)
  }

  /** More registers of some class are live before instruction `k` than the class has. */
  ghost predicate Overfull(ranges: seq<Track>, classes: seq<RegisterClass>, k: nat)
    requires |ranges| == |classes|
  {
    exists c :: |LiveSet(ranges, classes, c, k)| > |Pool(c)|
  }

  /** At most 13 general and 8 XMM registers are live at any one point. */
  ghost predicate Fits(ranges: seq<Track>, classes: seq<RegisterClass>, length: nat)
    requires |ranges| == |classes|
  {
    forall k :: 0 <= k < length ==> !Overfull(ranges, classes, k)
  }

  /** `tracks` is `ranges` with registers of the right class handed out to some. */
  ghost predicate SameRanges(ranges: seq<Track>, classes: seq<RegisterClass>, tracks: seq<Track>) {
    && |ranges| == |tracks| == |classes|
    && forall v :: 0 <= v < |tracks| ==>
         && tracks[v].firstDef == ranges[v].firstDef && tracks[v].lastUse == ranges[v].lastUse
         && (tracks[v].phys.Some? ==> tracks[v].phys.value in Pool(classes[v]))
  }

  /** Registers live together at or after `k` are in different places. */
  ghost predicate Apart(tracks: seq<Track>, k: nat) {
    forall v, w, j: nat {:trigger Spans(tracks[v], j), Spans(tracks[w], j)} ::
      0 <= v < |tracks| && 0 <= w < |tracks| && v != w && k <= j && Spans(tracks[v], j) && Spans(tracks[w], j) ==>
        tracks[v].phys != tracks[w].phys
  }

  ghost function Places(tracks: seq<Track>, vs: set<nat>): set<nat> {
    set v | v in vs && v < |tracks| && tracks[v].phys.Some? :: tracks[v].phys.value
  }

  /** The live set is the set of registers of exactly the virtual registers in `vs`. */
  ghost predicate Holds(a: Alloc, vs: set<nat>) {
    && (forall v :: v in vs ==> v < |a.tracks| && a.tracks[v].phys.Some?)
    && a.live == Places(a.tracks, vs)
    && (forall v, w :: v in vs && w in vs && v != w ==> a.tracks[v].phys != a.tracks[w].phys)
  }

  ghost function LiveAt(tracks: seq<Track>, k: nat): set<nat> {
    set v | 0 <= v < |tracks| && Spans(tracks[v], k)
  }

  /** Registers nobody reads are given the first register of their class. */
  ghost predicate FirstToIdle(classes: seq<RegisterClass>, tracks: seq<Track>)
    requires |classes| == |tracks|
  {
    forall v :: 0 <= v < |tracks| && Idle(tracks[v]) && tracks[v].phys.Some? ==>
      tracks[v].phys == Some(FirstRegister(classes[v]))
  }

  /** The invariant once the instructions from `k` on have been scanned. */
  ghost predicate Scanned(ranges: seq<Track>, classes: seq<RegisterClass>, a: Alloc, k: nat) {
    && SameRanges(ranges, classes, a.tracks)
    && (forall v :: 0 <= v < |classes| ==> (a.tracks[v].phys.Some? <==> Met(ranges[v], k)))
    && FirstToIdle(classes, a.tracks)
    && Apart(a.tracks, k)
    && Holds(a, LiveAt(a.tracks, k))
  }

  /** The registers live after instruction `k` whose ranges the first `j` operands do not start. */
  ghost function Kept(tracks: seq<Track>, i: Instruction, k: nat, j: nat): set<nat>
    requires j <= |i.operands|
  {
    set v | 0 <= v < |tracks| && Spans(tracks[v], k + 1) &&
            !(tracks[v].firstDef == Some(k) && exists j' :: 0 <= j' < j && i.operands[j'].reg == v)
  }

  lemma {:induction false} EndRangesKeep(ranges: seq<Track>, classes: seq<RegisterClass>, i: Instruction, k: nat,
      j: nat, a: Alloc)
    requires InstructionFits(ranges, i, k) && InRange(i, |classes|) && j <= |i.operands|
    requires SameRanges(ranges, classes, a.tracks)
    requires forall v :: 0 <= v < |classes| && ranges[v].lastUse.Some? && k < ranges[v].lastUse.value ==>
               a.tracks[v].phys.Some?
    requires forall v :: 0 <= v < |ranges| && ranges[v].firstDef == Some(k) ==>
               ranges[v].lastUse.Some? && k < ranges[v].lastUse.value
    requires Holds(a, Kept(a.tracks, i, k, j))
    ensures var r := EndRanges(classes, i, k, j, a);
            r.Some? && !r.value.1 && r.value.0.tracks == a.tracks
                && Holds(r.value.0, Kept(a.tracks, i, k, |i.operands|))
    decreases |i.operands| - j
  {
    if j < |i.operands| {
      var o := i.operands[j];
      assert OperandFits(ranges, i, k, j);
      if IsWrite(o) && a.tracks[o.reg].firstDef == Some(k) {
        assert o.reg in Kept(a.tracks, i, k, j);
        assert Kept(a.tracks, i, k, j + 1) == Kept(a.tracks, i, k, j) - {o.reg};
        var p := a.tracks[o.reg].phys.value;
        EndRangesKeep(ranges, classes, i, k, j + 1, a.(live := a.live - {p}));
      } else {
        assert Kept(a.tracks, i, k, j + 1) == Kept(a.tracks, i, k, j);
        EndRangesKeep(ranges, classes, i, k, j + 1, a);
      }
    }
  }

  /** Those live before instruction `k` that already have a register. */
  ghost function Current(tracks: seq<Track>, k: nat): set<nat> {
    set v | 0 <= v < |tracks| && Spans(tracks[v], k) && tracks[v].phys.Some?
  }

  /** Amid handing out registers for instruction `k`: its first `j` operands are done. */
  ghost predicate Starting(ranges: seq<Track>, classes: seq<RegisterClass>, a: Alloc, i: Instruction, k: nat, j: nat)
    requires j <= |i.operands|
  {
    && SameRanges(ranges, classes, a.tracks)
    && (forall v :: 0 <= v < |classes| && a.tracks[v].phys.Some? ==> Met(ranges[v], k))
    && (forall v :: 0 <= v < |classes| && Met(ranges[v], if Idle(ranges[v]) then k else k + 1) ==>
         a.tracks[v].phys.Some?)
    && FirstToIdle(classes, a.tracks)
    && (forall j' :: 0 <= j' < j && IsRead(i.operands[j']) && i.operands[j'].reg < |classes| ==>
          a.tracks[i.operands[j'].reg].phys.Some?)
    && Apart(a.tracks, k + 1)
    && Holds(a, Current(a.tracks, k))
  }

  lemma {:induction false} HoldsOneMore(a: Alloc, vs: set<nat>, v: nat, p: nat)
    requires Holds(a, vs) && v < |a.tracks| && v !in vs && p !in a.live
    ensures Holds(Alloc(a.tracks[v := a.tracks[v].(phys := Some(p))], a.live + {p}), vs + {v})
  {
    var tracks := a.tracks[v := a.tracks[v].(phys := Some(p))];
    assert Places(tracks, vs + {v}) == Places(a.tracks, vs) + {p};
  }

  lemma {:induction false} StartOne(ranges: seq<Track>, classes: seq<RegisterClass>, i: Instruction, k: nat, j: nat,
      a: Alloc, p: nat)
    requires InstructionFits(ranges, i, k) && j < |i.operands| && Starting(ranges, classes, a, i, k, j)
    requires var o := i.operands[j];
      IsRead(o) && o.reg < |classes| && a.tracks[o.reg].lastUse == Some(k) && a.tracks[o.reg].phys.None?
      && p in Pool(classes[o.reg]) && p !in a.live
    ensures var o := i.operands[j];
      Starting(ranges, classes, Alloc(a.tracks[o.reg := a.tracks[o.reg].(phys := Some(p))], a.live + {p}), i, k, j + 1)
  {
    var v := i.operands[j].reg;
    assert OperandFits(ranges, i, k, j);
    var tracks := a.tracks[v := a.tracks[v].(phys := Some(p))];
    assert Current(tracks, k) == Current(a.tracks, k) + {v};
    HoldsOneMore(a, Current(a.tracks, k), v, p);
    assert Apart(tracks, k + 1) by {
      forall x, y, n: nat | 0 <= x < |tracks| && 0 <= y < |tracks| && x != y && k + 1 <= n
                            && Spans(tracks[x], n) && Spans(tracks[y], n)
        ensures tracks[x].phys != tracks[y].phys
      {
        assert Spans(a.tracks[x], n) && Spans(a.tracks[y], n);
      }
    }
  }

  /** Every element of `ps` has its own preimage in `vs`. */
  lemma {:induction false} Covers(ps: set<nat>, vs: set<nat>, tracks: seq<Track>)
    requires forall v :: v in vs ==> v < |tracks|
    requires forall p :: p in ps ==> exists v :: v in vs && tracks[v].phys == Some(p)
    ensures |ps| <= |vs|
  {
    if ps != {} {
      var p :| p in ps;
      var v :| v in vs && tracks[v].phys == Some(p);
      forall q | q in ps - {p} ensures exists w :: w in vs - {v} && tracks[w].phys == Some(q) {
        var w :| w in vs && tracks[w].phys == Some(q);
        assert w in vs - {v};
      }
      Covers(ps - {p}, vs - {v}, tracks);
    }
  }

  /** Registers in different places of a pool are no more than the pool. */
  lemma {:induction false} Injects(vs: set<nat>, pool: set<nat>, tracks: seq<Track>)
    requires forall v :: v in vs ==> v < |tracks| && tracks[v].phys.Some? && tracks[v].phys.value in pool
    requires forall v, w :: v in vs && w in vs && v != w ==> tracks[v].phys != tracks[w].phys
    ensures |vs| <= |pool|
  {
    if vs != {} {
      var v :| v in vs;
      Injects(vs - {v}, pool - {tracks[v].phys.value}, tracks);
    }
  }

  lemma {:induction false} PoolsApart(c: RegisterClass, d: RegisterClass, p: nat)
    requires p in Pool(c) && p in Pool(d)
    ensures c == d
  {}

  lemma {:induction false} SubsetSize(s: set<nat>, t: set<nat>)
    requires s <= t
    ensures |s| <= |t|
  {
    assert t == s + (t - s);
  }

  lemma {:induction false} PoolTaken(a: Alloc, vs: set<nat>, ws: set<nat>, pool: set<nat>)
    requires Holds(a, vs) && pool <= a.live && ws <= vs
    requires forall w :: w in vs && a.tracks[w].phys.value in pool ==> w in ws
    ensures |pool| <= |ws|
  {
    forall p | p in pool ensures exists w :: w in ws && a.tracks[w].phys == Some(p) {
      assert p in a.live;
      var w :| w in vs && a.tracks[w].phys == Some(p);
      assert w in ws;
    }
    Covers(pool, ws, a.tracks);
  }

  /** The allocator runs out of registers only when too many are live. */
  lemma {:induction false} TooManyLive(ranges: seq<Track>, classes: seq<RegisterClass>, k: nat, v: nat, a: Alloc,
      pool: set<nat>)
    requires SameRanges(ranges, classes, a.tracks) && Holds(a, Current(a.tracks, k))
    requires v < |classes| && Spans(ranges[v], k) && a.tracks[v].phys.None?
    requires pool <= a.live
    requires forall w :: 0 <= w < |classes| && a.tracks[w].phys.Some? && a.tracks[w].phys.value in pool ==>
               classes[w] == classes[v]
    ensures |LiveSet(ranges, classes, classes[v], k)| > |pool|
  {
    var all := LiveSet(ranges, classes, classes[v], k);
    var current := Current(a.tracks, k);
    var ws := set w | w in current && classes[w] == classes[v];
    PoolTaken(a, current, ws, pool);
    assert v in all && v !in ws;
    SubsetSize(ws + {v}, all);
  }

  lemma {:induction false} OutOfRegisters(ranges: seq<Track>, classes: seq<RegisterClass>, k: nat, v: nat, a: Alloc)
    requires SameRanges(ranges, classes, a.tracks) && Holds(a, Current(a.tracks, k))
    requires v < |classes| && Spans(ranges[v], k) && a.tracks[v].phys.None?
    requires FirstDifference(Pool(classes[v]), a.live, 0).None?
    ensures |LiveSet(ranges, classes, classes[v], k)| > |Pool(classes[v])|
  {
    forall w | 0 <= w < |classes| && a.tracks[w].phys.Some? && a.tracks[w].phys.value in Pool(classes[v])
      ensures classes[w] == classes[v]
    {
      PoolsApart(classes[v], classes[w], a.tracks[w].phys.value);
    }
    assert Pool(classes[v]) <= a.live;
    TooManyLive(ranges, classes, k, v, a, Pool(classes[v]));
  }

  /** Operand `j` of instruction `k` is not the last use of a register without a place. */
  lemma {:induction false} StartSkip(ranges: seq<Track>, classes: seq<RegisterClass>, i: Instruction, k: nat, j: nat,
      a: Alloc)
    requires InstructionFits(ranges, i, k) && j < |i.operands| && Starting(ranges, classes, a, i, k, j)
    requires var o := i.operands[j];
             o.reg < |classes| && (!IsRead(o) || a.tracks[o.reg].lastUse != Some(k) || a.tracks[o.reg].phys.Some?)
    ensures Starting(ranges, classes, a, i, k, j + 1)
  {
    hide Apart, Holds, FirstToIdle;
    assert OperandFits(ranges, i, k, j);
  }

  lemma {:induction false} StartFails(ranges: seq<Track>, classes: seq<RegisterClass>, i: Instruction, k: nat, j: nat,
      a: Alloc)
    requires InstructionFits(ranges, i, k) && j < |i.operands| && Starting(ranges, classes, a, i, k, j)
    requires forall v :: 0 <= v < |ranges| && ranges[v].firstDef.Some? && ranges[v].lastUse.Some? ==>
               ranges[v].firstDef.value < ranges[v].lastUse.value
    requires var v := i.operands[j].reg;
             && v < |classes| && a.tracks[v].lastUse == Some(k) && a.tracks[v].phys.None?
             && FirstDifference(Pool(classes[v]), a.live, 0).None?
    ensures Overfull(ranges, classes, k)
  {
    hide Apart, Holds, FirstToIdle, LiveSet, Pool, FirstDifference;
    assert OperandFits(ranges, i, k, j);
    OutOfRegisters(ranges, classes, k, i.operands[j].reg, a);
  }

  lemma {:induction false} StartRangesFind(ranges: seq<Track>, classes: seq<RegisterClass>, i: Instruction, k: nat,
      j: nat, a: Alloc)
    requires InstructionFits(ranges, i, k) && InRange(i, |classes|) && j <= |i.operands|
    requires |a.tracks| == |classes| && Starting(ranges, classes, a, i, k, j)
    requires forall v :: 0 <= v < |ranges| && ranges[v].firstDef.Some? && ranges[v].lastUse.Some? ==>
               ranges[v].firstDef.value < ranges[v].lastUse.value
    ensures match StartRanges(classes, i, k, j, a)
            case Some(a') => Starting(ranges, classes, a', i, k, |i.operands|)
            case None => Overfull(ranges, classes, k)
    decreases |i.operands| - j
  {
    hide Starting, Overfull, InstructionFits, FirstDifference, Pool;
    if j < |i.operands| {
      var o := i.operands[j];
      assert o in i.operands;
      var t := a.tracks[o.reg];
      if !IsRead(o) || t.lastUse != Some(k) || t.phys.Some? {
        StartSkip(ranges, classes, i, k, j, a);
        StartRangesFind(ranges, classes, i, k, j + 1, a);
      } else {
        match FirstDifference(Pool(classes[o.reg]), a.live, 0)
        case None =>
          StartFails(ranges, classes, i, k, j, a);
        case Some(p) =>
          StartOne(ranges, classes, i, k, j, a, p);
          StartRangesFind(ranges, classes, i, k, j + 1, Alloc(a.tracks[o.reg := t.(phys := Some(p))], a.live + {p}));
      }
    }
  }

  /** A load nobody reads gets the first register of its class, whatever is live. */
  lemma {:induction false} EndRangesLoad(classes: seq<RegisterClass>, i: Instruction, k: nat, j: nat, a: Alloc)
    requires |a.tracks| == |classes| && InRange(i, |classes|) && WellShaped(i) && i.op.Load? && j < |i.operands|
    requires var v := i.operands[|i.operands| - 1].reg;
             v < |classes| && Idle(a.tracks[v]) && a.tracks[v].firstDef == Some(k) && a.tracks[v].phys.None?
    ensures var v := i.operands[|i.operands| - 1].reg;
            var t := a.tracks[v].(phys := Some(FirstRegister(classes[v])));
            EndRanges(classes, i, k, j, a) == Some((a.(tracks := a.tracks[v := t]), false))
    decreases |i.operands| - j
  {
    var o := i.operands[j];
    assert o in i.operands;
    if j < |i.operands| - 1 {
      EndRangesLoad(classes, i, k, j + 1, a);
    } else {
      FirstIsFirst(classes[o.reg]);
    }
  }

  /** The register that instruction `k` defines and nobody reads is the only one it writes. */
  lemma {:induction false} IdleAlone(ranges: seq<Track>, i: Instruction, k: nat, v: nat)
    requires InstructionFits(ranges, i, k) && WellShaped(i)
    requires v < |ranges| && Idle(ranges[v]) && ranges[v].firstDef == Some(k)
    ensures i.op.Load? && i.operands[|i.operands| - 1].reg == v
    ensures forall w :: 0 <= w < |ranges| && ranges[w].firstDef == Some(k) ==> w == v
  {
    forall w | 0 <= w < |ranges| && ranges[w].firstDef == Some(k)
      ensures i.op.Load? ==> i.operands[|i.operands| - 1].reg == w
    {
      var j :| 0 <= j < |i.operands| && i.operands[j].reg == w;
      assert OperandFits(ranges, i, k, j);
    }
    var j :| 0 <= j < |i.operands| && i.operands[j].reg == v;
    assert OperandFits(ranges, i, k, j);
  }

  /** After the ranges instruction `k` starts have ended, none of its registers has been handed out yet. */
  lemma {:induction false} EndedStarting(ranges: seq<Track>, classes: seq<RegisterClass>, code: Code, k: nat, a: Alloc)
    requires RangesFit(ranges, code) && k < |code| && InRange(code[k], |classes|) && WellShaped(code[k])
    requires Scanned(ranges, classes, a, k + 1)
    ensures var e := EndRanges(classes, code[k], k, 0, a);
            e.Some? && !e.value.1 && Starting(ranges, classes, e.value.0, code[k], k, 0)
  {
    var i := code[k];
    assert InstructionFits(ranges, i, k);
    if v :| 0 <= v < |ranges| && Idle(ranges[v]) && ranges[v].firstDef == Some(k) {
      IdleAlone(ranges, i, k, v);
      EndRangesLoad(classes, i, k, 0, a);
      FirstIsFirst(classes[v]);
      hide Starting;
      IdleStarting(ranges, classes, i, k, a, v);
    } else {
      hide Starting, Scanned;
      UsedStarting(ranges, classes, i, k, a);
    }
  }

  lemma {:induction false} UsedStarting(ranges: seq<Track>, classes: seq<RegisterClass>, i: Instruction, k: nat,
      a: Alloc)
    requires InstructionFits(ranges, i, k) && InRange(i, |classes|) && |a.tracks| == |classes|
    requires Scanned(ranges, classes, a, k + 1)
    requires forall v :: 0 <= v < |ranges| && ranges[v].firstDef == Some(k) ==>
               ranges[v].lastUse.Some? && k < ranges[v].lastUse.value
    ensures var e := EndRanges(classes, i, k, 0, a);
            e.Some? && !e.value.1 && Starting(ranges, classes, e.value.0, i, k, 0)
  {
    assert Kept(a.tracks, i, k, 0) == LiveAt(a.tracks, k + 1);
    hide EndRanges, Holds, Apart;
    EndRangesKeep(ranges, classes, i, k, 0, a);
    assert Kept(a.tracks, i, k, |i.operands|) == Current(a.tracks, k);
  }

  lemma {:induction false} IdleStarting(ranges: seq<Track>, classes: seq<RegisterClass>, i: Instruction, k: nat,
      a: Alloc, v: nat)
    requires Scanned(ranges, classes, a, k + 1) && v < |classes|
    requires Idle(ranges[v]) && ranges[v].firstDef == Some(k) && FirstRegister(classes[v]) in Pool(classes[v])
    requires forall w :: 0 <= w < |ranges| && ranges[w].firstDef == Some(k) ==> w == v
    ensures var t := a.tracks[v].(phys := Some(FirstRegister(classes[v])));
            Starting(ranges, classes, a.(tracks := a.tracks[v := t]), i, k, 0)
  {
    var t := a.tracks[v].(phys := Some(FirstRegister(classes[v])));
    var tracks := a.tracks[v := t];
    assert forall w, n :: 0 <= w < |tracks| && Spans(tracks[w], n) ==> w != v && Spans(a.tracks[w], n);
    assert Current(tracks, k) == LiveAt(a.tracks, k + 1);
    HoldsOther(a, LiveAt(a.tracks, k + 1), v, t);
    hide Holds;
  }

  lemma {:induction false} HoldsOther(a: Alloc, vs: set<nat>, v: nat, t: Track)
    requires Holds(a, vs) && v !in vs && v < |a.tracks|
    ensures Holds(a.(tracks := a.tracks[v := t]), vs)
  {
    assert Places(a.tracks[v := t], vs) == Places(a.tracks, vs);
  }

  /** Scanning instruction `k` keeps the invariant, or more registers are live there than there are. */
  lemma {:induction false} ScanOne(ranges: seq<Track>, classes: seq<RegisterClass>, code: Code, k: nat, a: Alloc)
    requires RangesFit(ranges, code) && k < |code| && InRange(code[k], |classes|) && WellShaped(code[k])
    requires Scanned(ranges, classes, a, k + 1)
    ensures var e := EndRanges(classes, code[k], k, 0, a);
      && e.Some? && !e.value.1
      && match StartRanges(classes, code[k], k, 0, e.value.0)
         case Some(a') => Scanned(ranges, classes, a', k)
         case None => Overfull(ranges, classes, k)
  {
    var i := code[k];
    assert InstructionFits(ranges, i, k);
    EndedStarting(ranges, classes, code, k, a);
    var a1 := EndRanges(classes, i, k, 0, a).value.0;
    hide Starting;
    StartRangesFind(ranges, classes, i, k, 0, a1);
    match StartRanges(classes, i, k, 0, a1)
    case None =>
    case Some(a2) => StartedScanned(ranges, classes, i, k, a2);
  }

  lemma {:induction false} StartedScanned(ranges: seq<Track>, classes: seq<RegisterClass>, i: Instruction, k: nat,
      a: Alloc)
    requires InstructionFits(ranges, i, k) && Starting(ranges, classes, a, i, k, |i.operands|)
    ensures Scanned(ranges, classes, a, k)
  {
    forall v | 0 <= v < |classes| && ranges[v].lastUse == Some(k) ensures a.tracks[v].phys.Some? {
      var j :| 0 <= j < |i.operands| && i.operands[j].reg == v && IsRead(i.operands[j]);
    }
    assert Current(a.tracks, k) == LiveAt(a.tracks, k);
    forall v, w, j: nat | 0 <= v < |a.tracks| && 0 <= w < |a.tracks| && v != w && k <= j
                          && Spans(a.tracks[v], j) && Spans(a.tracks[w], j)
      ensures a.tracks[v].phys != a.tracks[w].phys
    {
      if j == k {
        assert v in LiveAt(a.tracks, k) && w in LiveAt(a.tracks, k);
      }
    }
  }

  lemma {:induction false} AllocateScans(ranges: seq<Track>, classes: seq<RegisterClass>, code: Code, k: nat, a: Alloc)
    requires RangesFit(ranges, code) && k <= |code| && forall i <- code :: InRange(i, |classes|) && WellShaped(i)
    requires Scanned(ranges, classes, a, k)
    ensures match Allocate(classes, code, k, a)
            case Some(a') => Scanned(ranges, classes, a', 0)
            case None => true
    ensures Allocate(classes, code, k, a).Some? <==> Fits(ranges, classes, k)
    decreases k
  {
    hide RangesFit, Overfull, EndRanges, StartRanges, Apart, Holds;
    if k > 0 {
      assert code[k - 1] in code;
      ScanOne(ranges, classes, code, k - 1, a);
      var a1 := EndRanges(classes, code[k - 1], k - 1, 0, a).value.0;
      match StartRanges(classes, code[k - 1], k - 1, 0, a1)
      case None =>
        assert Overfull(ranges, classes, k - 1);
      case Some(a2) =>
        ScannedFits(ranges, classes, a2, k - 1);
        AllocateScans(ranges, classes, code, k - 1, a2);
    }
  }

  lemma {:induction false} ScannedFits(ranges: seq<Track>, classes: seq<RegisterClass>, a: Alloc, k: nat)
    requires Scanned(ranges, classes, a, k)
    ensures !Overfull(ranges, classes, k)
  {
    forall c ensures |LiveSet(ranges, classes, c, k)| <= |Pool(c)| {
      var vs := LiveSet(ranges, classes, c, k);
      assert vs <= LiveAt(a.tracks, k);
      Injects(vs, Pool(c), a.tracks);
    }
  }

  lemma {:induction false} NothingScanned(ranges: seq<Track>, classes: seq<RegisterClass>, code: Code)
    requires RangesFit(ranges, code) && |ranges| == |classes|
    ensures Scanned(ranges, classes, Alloc(ranges, {}), |code|)
  {
    assert LiveAt(ranges, |code|) == {};
  }
}
