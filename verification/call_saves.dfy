/** Saving registers around calls.

    The reverse pass of the allocator notes the registers live at each call on a list;
    the rewriting pass, going forward, takes the notes back off the end of the list and
    turns placeholders around each call into pushes and pops. */
module CallSaves {
  import opened Wrappers
  import opened Rudder

  /** `Placeholder` is an instruction that does nothing. */
  datatype Instruction = Push(reg: nat) | Pop(reg: nat) | Call(target: nat, inputs: nat) | Placeholder | Other(id: nat)

  /** RDI, RSI, RDX, RCX, R8, R9. */
  const ARG_REGS: seq<nat> := [5, 4, 2, 1, 8, 9]

  /** RAX, RDI, RSI, RDX, RCX, R8, R9, R10, R11. */
  const CALLER_SAVED: seq<nat> := [0, 5, 4, 2, 1, 8, 9, 10, 11]

  const SLOTS := 9

  type Code = seq<Instruction>

  predicate MustSave(r: nat, live: set<nat>, target: nat, inputs: nat) {
    r in live && r !in ARG_REGS[..if inputs < |ARG_REGS| then inputs else |ARG_REGS|] && r != target
  }

  function Filter(regs: seq<nat>, live: set<nat>, target: nat, inputs: nat): (s: seq<nat>)
    ensures |s| <= |regs|
    ensures forall r :: r in s <==> r in regs && MustSave(r, live, target, inputs)
    ensures (forall i, j :: 0 <= i < j < |regs| ==> regs[i] != regs[j]) ==> forall i, j :: 0 <= i < j < |s| ==>
              s[i] != s[j]
  {
    if regs == [] then []
    else
      var init := Filter(regs[..|regs| - 1], live, target, inputs);
      var r := regs[|regs| - 1];
      assert regs == regs[..|regs| - 1] + [r];
      if MustSave(r, live, target, inputs) then init + [r] else init
  }

  function ToSave(live: set<nat>, target: nat, inputs: nat): (s: seq<nat>)
    ensures |s| <= SLOTS
    ensures forall r :: r in s <==> r in CALLER_SAVED && MustSave(r, live, target, inputs)
    ensures forall i, j :: 0 <= i < j < |s| ==> s[i] != s[j]
  {
    Filter(CALLER_SAVED, live, target, inputs)
  }

  /** Register `r` carries one of the first `inputs` arguments: RDI, RSI, RDX, RCX, R8 and R9, in this order. */
  predicate CarriesArgument(r: nat, inputs: nat) {
    exists k :: 0 <= k < inputs && k < 6 && r == [5, 4, 2, 1, 8, 9][k]
  }

  /** Saved are those of RAX, RDI, RSI, RDX, RCX, R8, R9, R10 and R11 that are live, carry no argument and are
      not what is called, and in this order. */
  lemma {:induction false} SavedExactly(live: set<nat>, target: nat, inputs: nat)
    ensures forall r :: r in ToSave(live, target, inputs) <==>
              && r in {0, 1, 2, 4, 5, 8, 9, 10, 11} && r in live && !CarriesArgument(r, inputs) && r != target
    ensures InOrder(ToSave(live, target, inputs))
  {
    forall r ensures MustSave(r, live, target, inputs) <==> r in live && !CarriesArgument(r, inputs) && r != target {
      ArgumentCarried(r, inputs);
    }
    CallerSavedAre();
    assert InOrder(CALLER_SAVED);
    hide MustSave, CarriesArgument, InOrder;
    FilterOrdered(CALLER_SAVED, live, target, inputs);
  }

  /** The position in the order of saving. */
  function Rank(r: nat): nat {
    match r
    case 0 => 0
    case 5 => 1
    case 4 => 2
    case 2 => 3
    case 1 => 4
    case _ => r
  }

  ghost predicate InOrder(s: seq<nat>) {
    forall i, j :: 0 <= i < j < |s| ==> Rank(s[i]) < Rank(s[j])
  }

  lemma {:induction false} CallerSavedAre()
    ensures forall r :: r in CALLER_SAVED <==> r in {0, 1, 2, 4, 5, 8, 9, 10, 11}
  {
    var s := CALLER_SAVED;
    assert s[0] == 0 && s[1] == 5 && s[2] == 4 && s[3] == 2 && s[4] == 1 && s[5] == 8 && s[6] == 9 && s[7] == 10;
    assert s[8] == 11;
  }

  lemma {:induction false} ArgumentCarried(r: nat, inputs: nat)
    ensures CarriesArgument(r, inputs) <==> r in ARG_REGS[..if inputs < |ARG_REGS| then inputs else |ARG_REGS|]
  {
    var first := ARG_REGS[..if inputs < |ARG_REGS| then inputs else |ARG_REGS|];
    if CarriesArgument(r, inputs) {
      var k :| 0 <= k < inputs && k < 6 && r == [5, 4, 2, 1, 8, 9][k];
      assert first[k] == r;
    }
    if r in first {
      var k :| 0 <= k < |first| && first[k] == r;
      assert [5, 4, 2, 1, 8, 9][k] == r;
    }
  }

  lemma {:induction false} FilterOrdered(regs: seq<nat>, live: set<nat>, target: nat, inputs: nat)
    requires InOrder(regs)
    ensures InOrder(Filter(regs, live, target, inputs))
  {
    if regs != [] {
      var n := |regs| - 1;
      FilterOrdered(regs[..n], live, target, inputs);
      var init := Filter(regs[..n], live, target, inputs);
      forall i | 0 <= i < |init| ensures Rank(init[i]) < Rank(regs[n]) {
        assert init[i] in init;
        var j :| 0 <= j < n && regs[..n][j] == init[i];
      }
      OrderSnoc(init, regs[n]);
    }
  }

  lemma {:induction false} OrderSnoc(s: seq<nat>, r: nat)
    requires InOrder(s) && forall i :: 0 <= i < |s| ==> Rank(s[i]) < Rank(r)
    ensures InOrder(s + [r])
  {
    var t := s + [r];
    forall i, j | 0 <= i < j < |t| ensures Rank(t[i]) < Rank(t[j]) {
      assert t[i] == s[i];
      if j < |s| {
        assert t[j] == s[j];
      }
    }
  }

  /** The notes for the calls from `k` on, last call first. */
  function Notes(code: Code, live: seq<set<nat>>, k: nat): seq<(nat, set<nat>)>
    requires |live| == |code| && k <= |code|
    decreases |code| - k
  {
    if k == |code| then []
    else Notes(code, live, k + 1) + if code[k].Call? then [(k, live[k])] else []
  }

  /** The reverse pass. */
  method NoteCalls(code: Code, live: seq<set<nat>>) returns (notes: seq<(nat, set<nat>)>)
    requires |live| == |code|
    ensures notes == Notes(code, live, 0)
  {
    notes := [];
    var k: nat := |code|;
    while k > 0
      invariant k <= |code| && notes == Notes(code, live, k)
    {
      k := k - 1;
      if code[k].Call? {
        notes := notes + [(k, live[k])];
      }
    }
  }

  /** Position `p` is a slot of call `i`. */
  predicate InSlot(i: nat, p: nat) {
    i - SLOTS <= p <= i + SLOTS && p != i
  }

  ghost predicate SlotsFree(code: Code, i: nat) {
    SLOTS <= i < |code| - SLOTS && forall p: nat :: p < |code| && InSlot(i, p) ==> code[p] == Placeholder
  }

  /** Every call has nine placeholders of its own on each side. */
  ghost predicate Padded(code: Code) {
    && (forall i :: 0 <= i < |code| && code[i].Call? ==> SlotsFree(code, i))
    && (forall i, j :: 0 <= i < j < |code| && code[i].Call? && code[j].Call? ==> i + 2 * SLOTS < j)
  }

  function Saved(code: Code, live: seq<set<nat>>, i: nat): seq<nat>
    requires |live| == |code| && i < |code| && code[i].Call?
  {
    ToSave(live[i], code[i].target, code[i].inputs)
  }

  /** What slot `p` of call `i` holds: pushes first, pops last and in the opposite order. */
  function SlotCode(saved: seq<nat>, i: nat, p: nat): Instruction
    requires SLOTS <= i && InSlot(i, p)
  {
    if p < i then
      if p - (i - SLOTS) < |saved| then Push(saved[p - (i - SLOTS)]) else Placeholder
    else
      if i + SLOTS - p < |saved| then Pop(saved[i + SLOTS - p]) else Placeholder
  }

  ghost predicate Wrapped(code: Code, saved: seq<nat>, i: nat) {
    && SLOTS <= i < |code| - SLOTS
    && forall p: nat :: p < |code| && InSlot(i, p) ==> code[p] == SlotCode(saved, i, p)
  }

  /** Turns the slots of call `i` into pushes and pops. */
  method WrapCall(code: Code, i: nat, saved: seq<nat>) returns (code': Code)
    requires |saved| <= SLOTS && SlotsFree(code, i)
    ensures |code'| == |code| && Wrapped(code', saved, i)
    ensures forall p: nat :: p < |code| ==> if InSlot(i, p) then !code'[p].Call? else code'[p] == code[p]
  {
    code' := code;
    for s := 0 to |saved|
      invariant |code'| == |code|
      invariant forall p: nat :: p < |code| ==>
        code'[p] == if i - SLOTS <= p < i - SLOTS + s then SlotCode(saved, i, p) else code[p]
    {
      code' := code'[i - (SLOTS - s) := Push(saved[s])];
    }
    ghost var pushed := code';
    var s: nat := |saved|;
    while s > 0
      invariant s <= |saved| && |code'| == |code|
      invariant forall p: nat :: p < |code| ==>
        code'[p] == if i + SLOTS - |saved| < p <= i + SLOTS - s then SlotCode(saved, i, p) else pushed[p]
    {
      s := s - 1;
      code' := code'[i + (SLOTS - s) := Pop(saved[s])];
    }
  }

  /** Position `p` is no slot of any call. */
  ghost predicate Outside(code: Code, p: nat) {
    forall i :: 0 <= i < |code| && code[i].Call? ==> !InSlot(i, p)
  }

  lemma {:induction false} WrappedKept(code: Code, code': Code, saved: seq<nat>, i: nat)
    requires Wrapped(code, saved, i) && |code'| == |code| && forall p: nat :: p < |code| && InSlot(i, p) ==>
               code'[p] == code[p]
    ensures Wrapped(code', saved, i)
  {}

  lemma {:induction false} SlotsKept(code: Code, code': Code, i: nat)
    requires SlotsFree(code, i) && |code'| == |code| && forall p :: i - SLOTS <= p < |code| ==> code'[p] == code[p]
    ensures SlotsFree(code', i)
  {}

  /** The forward pass: no note is missing or for another call, and every call is wrapped in the
      saves of its own live set. */
  method InsertCallSaves(code: Code, live: seq<set<nat>>, notes0: seq<(nat, set<nat>)>) returns (code': Code)
    requires |live| == |code| && Padded(code) && notes0 == Notes(code, live, 0)
    ensures |code'| == |code|
    ensures forall i :: 0 <= i < |code| && code[i].Call? ==>
              code'[i] == code[i] && Wrapped(code', Saved(code, live, i), i)
    ensures forall p :: 0 <= p < |code| && Outside(code, p) ==> code'[p] == code[p]
  {
    hide ToSave, Wrapped;
    code' := code;
    var notes := notes0;
    ghost var frontier: nat := 0;
    for k := 0 to |code|
      invariant |code'| == |code| && notes == Notes(code, live, k)
      invariant forall p :: frontier <= p < |code| ==> code'[p] == code[p]
      invariant forall j :: k <= j < |code| && code[j].Call? ==> frontier <= j - SLOTS
      invariant forall i :: 0 <= i < k && code[i].Call? ==>
                  i + SLOTS < frontier && Wrapped(code', Saved(code, live, i), i)
      invariant forall p :: 0 <= p < |code| && Outside(code, p) ==> code'[p] == code[p]
      invariant forall p :: 0 <= p < |code| && code'[p].Call? ==> code[p].Call?
      invariant forall p :: 0 <= p < |code| && code[p].Call? ==> code'[p] == code[p]
    {
      if code'[k].Call? {
        var (index, liveHere) := notes[|notes| - 1];
        notes := notes[..|notes| - 1];
        assert index == k && liveHere == live[k];
        ghost var before := code';
        SlotsKept(code, code', k);
        code' := WrapCall(code', k, ToSave(liveHere, code'[k].target, code'[k].inputs));
        frontier := k + SLOTS + 1;
        forall i | 0 <= i < k && code[i].Call? ensures Wrapped(code', Saved(code, live, i), i) {
          WrappedKept(before, code', Saved(code, live, i), i);
        }
      }
    }
  }

  datatype Machine = Machine(regs: map<nat, Word>, stack: seq<Word>)

  function Reg(m: Machine, r: nat): Word {
    if r in m.regs then m.regs[r] else 0
  }

  /** What a callee may leave in the registers, given the call and the registers before it. */
  type Callee = (Instruction, map<nat, Word>) -> map<nat, Word>

  function Step(callee: Callee, i: Instruction, m: Machine): Option<Machine> {
    match i
    case Push(r) => Some(m.(stack := m.stack + [Reg(m, r)]))
    case Pop(r) =>
      if m.stack == [] then None
      else Some(Machine(m.regs[r := m.stack[|m.stack| - 1]], m.stack[..|m.stack| - 1]))
    case Placeholder => Some(m)
    case _ => Some(m.(regs := callee(i, m.regs)))
  }

  /** Runs the instructions from `from` up to `end`. */
  function Run(callee: Callee, code: Code, from: nat, end: nat, m: Machine): Option<Machine>
    requires from <= end <= |code|
    decreases end
  {
    if from == end then Some(m)
    else
      match Run(callee, code, from, end - 1, m)
      case None => None
      case Some(m') => Step(callee, code[end - 1], m')
  }

  lemma {:induction false} RunPushes(callee: Callee, code: Code, saved: seq<nat>, i: nat, s: nat, m: Machine)
      returns (m': Machine)
    requires Wrapped(code, saved, i) && |saved| <= SLOTS && s <= SLOTS
    ensures Run(callee, code, i - SLOTS, i - SLOTS + s, m) == Some(m') && m'.regs == m.regs
    ensures |m'.stack| == |m.stack| + (if s < |saved| then s else |saved|) && m.stack <= m'.stack
    ensures forall t :: 0 <= t < |m'.stack| - |m.stack| ==> m'.stack[|m.stack| + t] == Reg(m, saved[t])
  {
    if s == 0 {
      m' := m;
    } else {
      var m1 := RunPushes(callee, code, saved, i, s - 1, m);
      var p: nat := i - SLOTS + s - 1;
      assert InSlot(i, p) && code[p] == SlotCode(saved, i, p);
      m' := if s <= |saved| then m1.(stack := m1.stack + [Reg(m, saved[s - 1])]) else m1;
    }
  }

  lemma {:induction false} TopOfStack(stack: seq<Word>, values: seq<Word>, x: nat)
    requires x < |values|
    ensures var s := stack + values[..x + 1];
            s != [] && s[|s| - 1] == values[x] && s[..|s| - 1] == stack + values[..x]
  {}

  /** A pop restores the register saved last and leaves the others alone. */
  lemma {:induction false} PopStep(
    callee: Callee, saved: seq<nat>, values: seq<Word>, x: nat, m: Machine, m1: Machine,
        stack: seq<Word>) returns (m': Machine)
    requires x < |saved| == |values| && forall y, z :: 0 <= y < z < |saved| ==> saved[y] != saved[z]
    requires m1.stack == stack + values[..x + 1]
    requires forall y :: x < y < |saved| ==> Reg(m1, saved[y]) == values[y]
    requires forall r :: r !in saved ==> Reg(m1, r) == Reg(m, r)
    ensures Step(callee, Pop(saved[x]), m1) == Some(m') && m'.stack == stack + values[..x]
    ensures forall y :: x <= y < |saved| ==> Reg(m', saved[y]) == values[y]
    ensures forall r :: r !in saved ==> Reg(m', r) == Reg(m, r)
  {
    TopOfStack(stack, values, x);
    m' := Machine(m1.regs[saved[x] := values[x]], stack + values[..x]);
  }

  lemma {:induction false} SlotHolds(code: Code, saved: seq<nat>, i: nat, p: nat)
    requires Wrapped(code, saved, i) && InSlot(i, p)
    ensures SLOTS <= i && p < |code| && code[p] == SlotCode(saved, i, p)
  {}

  /** After the first `t` instructions behind the call: the results pushed last are popped first. */
  lemma {:induction false} RunPops(callee: Callee, code: Code, saved: seq<nat>, i: nat, t: nat, m: Machine,
      stack: seq<Word>, values: seq<Word>)
    returns (m': Machine)
    requires Wrapped(code, saved, i) && |saved| == |values| <= SLOTS && t <= SLOTS
    requires forall x, y :: 0 <= x < y < |saved| ==> saved[x] != saved[y]
    requires m.stack == stack + values
    ensures var left := if t <= SLOTS - |saved| then |saved| else SLOTS - t;
      && Run(callee, code, i + 1, i + 1 + t, m) == Some(m')
      && m'.stack == stack + values[..left]
      && (forall x :: left <= x < |saved| ==> Reg(m', saved[x]) == values[x])
      && (forall r :: r !in saved ==> Reg(m', r) == Reg(m, r))
  {
    hide Reg, Wrapped;
    if t == 0 {
      m' := m;
    } else {
      var m1 := RunPops(callee, code, saved, i, t - 1, m, stack, values);
      SlotHolds(code, saved, i, i + t);
      if SLOTS - t < |saved| {
        hide Step;
        m' := PopStep(callee, saved, values, SLOTS - t, m, m1, stack);
      } else {
        m' := m1;
      }
    }
  }

  /** Around a wrapped call the stack ends as it began, every saved register keeps its value whatever the
      callee does, and every other register is as the callee left it. */
  lemma {:induction false} AroundCall(callee: Callee, code: Code, saved: seq<nat>, i: nat, m: Machine)
      returns (m': Machine)
    requires Wrapped(code, saved, i) && |saved| <= SLOTS && code[i].Call?
    requires forall x, y :: 0 <= x < y < |saved| ==> saved[x] != saved[y]
    ensures Run(callee, code, i - SLOTS, i + SLOTS + 1, m) == Some(m') && m'.stack == m.stack
    ensures forall r :: r in saved ==> Reg(m', r) == Reg(m, r)
    ensures forall r :: r !in saved ==> Reg(m', r) == Reg(m.(regs := callee(code[i], m.regs)), r)
  {
    SlotHolds(code, saved, i, i + SLOTS);
    hide Wrapped;
    var m1 := RunPushes(callee, code, saved, i, SLOTS, m);
    var values := m1.stack[|m.stack|..];
    var m2 := m1.(regs := callee(code[i], m1.regs));
    assert Run(callee, code, i - SLOTS, i + 1, m) == Some(m2);
    assert m2.stack == m.stack + values;
    m' := RunPops(callee, code, saved, i, SLOTS, m2, m.stack, values);
    RunJoin(callee, code, i - SLOTS, i + 1, i + 1 + SLOTS, m);
    assert values[..0] == [];
    forall r | r in saved ensures Reg(m', r) == Reg(m, r) {
      var x :| 0 <= x < |saved| && saved[x] == r;
      assert values[x] == m1.stack[|m.stack| + x];
    }
  }

  /** Every live caller-saved register that must be kept across a call is, and the stack is as it was. */
  lemma {:induction false} CallKeepsSaved(callee: Callee, code: Code, live: seq<set<nat>>, code': Code, i: nat,
      m: Machine)
    returns (m': Machine)
    requires |live| == |code| == |code'| && i < |code| && code[i].Call? && code'[i] == code[i]
    requires Wrapped(code', Saved(code, live, i), i)
    ensures Run(callee, code', i - SLOTS, i + SLOTS + 1, m) == Some(m') && m'.stack == m.stack
    ensures forall r :: r in CALLER_SAVED && MustSave(r, live[i], code[i].target, code[i].inputs) ==>
              Reg(m', r) == Reg(m, r)
    ensures forall r :: r !in Saved(code, live, i) ==> Reg(m', r) == Reg(m.(regs := callee(code[i], m.regs)), r)
  {
    hide ToSave, MustSave, Reg, Run;
    m' := AroundCall(callee, code', Saved(code, live, i), i, m);
  }

  /** A function of the calling convention gives RBX, RSP, RBP and R12 to R15 back as they were. */
  ghost predicate KeepsConvention(callee: Callee) {
    forall i, regs, r {:trigger Reg(Machine(callee(i, regs), []), r)} :: r in {3, 6, 7, 12, 13, 14, 15} ==>
      Reg(Machine(callee(i, regs), []), r) == Reg(Machine(regs, []), r)
  }

  /** Around a wrapped call, every general register the allocator hands out that is live there, carries no
      argument and is not what is called keeps its value: it is saved, or the callee keeps it. */
  lemma {:induction false} LiveAcrossCall(callee: Callee, code: Code, live: seq<set<nat>>, code': Code, i: nat,
      m: Machine, r: nat) returns (m': Machine)
    requires |live| == |code| == |code'| && i < |code| && code[i].Call? && code'[i] == code[i]
    requires Wrapped(code', Saved(code, live, i), i) && KeepsConvention(callee)
    requires r <= 5 || 8 <= r <= 14
    ensures Run(callee, code', i - 9, i + 10, m) == Some(m') && m'.stack == m.stack
    ensures r in live[i] && !CarriesArgument(r, code[i].inputs) && r != code[i].target ==> Reg(m', r) == Reg(m, r)
  {
    m' := CallKeepsSaved(callee, code, live, code', i, m);
    SavedExactly(live[i], code[i].target, code[i].inputs);
    hide ToSave, CarriesArgument, MustSave, Run, Wrapped;
    if r in {3, 12, 13, 14} {
      assert Reg(Machine(callee(code[i], m.regs), []), r) == Reg(Machine(m.regs, []), r);
    }
  }

  lemma {:induction false} RunJoin(callee: Callee, code: Code, from: nat, mid: nat, end: nat, m: Machine)
    requires from <= mid <= end <= |code|
    ensures Run(callee, code, from, end, m) ==
            match Run(callee, code, from, mid, m)
            case None => None
            case Some(m') => Run(callee, code, mid, end, m')
    decreases end
  {
    if mid < end {
      RunJoin(callee, code, from, mid, end - 1, m);
    }
  }
}
