/** Where registers lie in the register file, and reading and writing them by name. */
module RegisterLayout {
  import opened Wrappers

  type Byte = bv8

  datatype Register = Register(offset: nat, width: nat)

  type Registers = map<string, Register>

  function Align8(n: nat): (m: nat)
    ensures n <= m < n + 8 && m % 8 == 0
  {
    (n + 7) / 8 * 8
  }

  ghost predicate Before(r: Register, s: Register) {
    r.offset + Align8(r.width) <= s.offset
  }

  /** Registers occupy disjoint 8-aligned ranges below `next`. */
  ghost predicate Laid(registers: Registers, next: nat) {
    && next % 8 == 0
    && (forall n :: n in registers ==>
          && registers[n].offset % 8 == 0 && registers[n].width > 0
          && registers[n].offset + Align8(registers[n].width) <= next)
    && forall m, n :: m in registers && n in registers && m != n ==>
         Before(registers[m], registers[n]) || Before(registers[n], registers[m])
  }

  class BuildContext {
    var registers: Registers
    var nextRegisterOffset: nat

    ghost predicate Valid()
      reads this
    {
      Laid(registers, nextRegisterOffset)
    }

    constructor ()
      ensures Valid() && registers == map[]
    {
      registers, nextRegisterOffset := map[], 0;
    }

    /** Whatever is added, and however often, the layout stays disjoint. */
    method AddRegister(name: string, width: nat)
      requires Valid() && width > 0
      modifies this
      ensures Valid() && registers == old(registers)[name := Register(old(nextRegisterOffset), width)]
      ensures nextRegisterOffset == old(nextRegisterOffset) + Align8(width)
    {
      registers := registers[name := Register(nextRegisterOffset, width)];
      nextRegisterOffset := nextRegisterOffset + Align8(width);
    }
  }

  /** The names of registers by where they start. */
  ghost predicate IndexedBy(registers: Registers, byOffset: map<nat, string>) {
    && (forall n :: n in registers ==> registers[n].offset in byOffset)
    && forall k :: k in byOffset ==> byOffset[k] in registers && registers[byOffset[k]].offset == k
  }

  method IndexRegisters(registers: Registers, ghost next: nat) returns (byOffset: map<nat, string>)
    requires Laid(registers, next)
    ensures IndexedBy(registers, byOffset)
  {
    byOffset := map[];
    var todo := registers.Keys;
    while todo != {}
      invariant todo <= registers.Keys
      invariant forall n :: n in registers && n !in todo ==> registers[n].offset in byOffset
      invariant forall k :: k in byOffset ==> byOffset[k] in registers && registers[byOffset[k]].offset == k
      decreases todo
    {
      var n :| n in todo;
      todo := todo - {n};
      byOffset := byOffset[registers[n].offset := n];
    }
  }

  /** The register that starts at `offset` or last before it. */
  function RegisterByOffset(byOffset: map<nat, string>, offset: nat): Option<string> {
    if offset in byOffset then Some(byOffset[offset])
    else if offset == 0 then None
    else RegisterByOffset(byOffset, offset - 1)
  }

  /** What is looked up is the last start at or before the offset; there is none only if none is. */
  lemma {:induction false} LookupIsLast(byOffset: map<nat, string>, offset: nat)
    ensures match RegisterByOffset(byOffset, offset)
            case None => forall k :: k in byOffset ==> k > offset
            case Some(name) =>
              exists k :: k in byOffset && byOffset[k] == name && k <= offset && forall j :: j in byOffset ==>
                  !(k < j <= offset)
    decreases offset
  {
    if offset !in byOffset && offset > 0 {
      LookupIsLast(byOffset, offset - 1);
    }
  }

  /** Every byte of a register is found to be part of it. */
  lemma {:induction false} LookupInside(registers: Registers, next: nat, byOffset: map<nat, string>, name: string,
      offset: nat)
    requires Laid(registers, next) && IndexedBy(registers, byOffset) && name in registers
    requires registers[name].offset <= offset < registers[name].offset + registers[name].width
    ensures RegisterByOffset(byOffset, offset) == Some(name)
    decreases offset
  {
    if offset in byOffset {
      var n := byOffset[offset];
      assert n != name ==> Before(registers[n], registers[name]) || Before(registers[name], registers[n]);
    } else {
      LookupInside(registers, next, byOffset, name, offset - 1);
    }
  }

  /** The largest end of a register. */
  ghost predicate IsFileSize(registers: Registers, size: nat) {
    && (forall n :: n in registers ==> registers[n].offset + registers[n].width <= size)
    && exists n :: n in registers && registers[n].offset + registers[n].width == size
  }

  /** The start offsets below `end`, in order. */
  function SortedOffsets(byOffset: map<nat, string>, end: nat): seq<nat> {
    if end == 0 then []
    else if end - 1 in byOffset then SortedOffsets(byOffset, end - 1) + [end - 1]
    else SortedOffsets(byOffset, end - 1)
  }

  /** Each start offset once, in order. */
  ghost predicate OffsetsOf(registers: Registers, offsets: seq<nat>) {
    && (forall i, j :: 0 <= i < j < |offsets| ==> offsets[i] < offsets[j])
    && (forall n :: n in registers ==> registers[n].offset in offsets)
    && forall k :: k in offsets ==> exists n :: n in registers && registers[n].offset == k
  }

  lemma {:induction false} OffsetsSorted(byOffset: map<nat, string>, end: nat)
    ensures var s := SortedOffsets(byOffset, end);
            && (forall i, j :: 0 <= i < j < |s| ==> s[i] < s[j])
            && (forall k :: k in s <==> k < end && k in byOffset)
    decreases end
  {
    if end > 0 {
      OffsetsSorted(byOffset, end - 1);
      var t := SortedOffsets(byOffset, end - 1);
      assert forall i :: 0 <= i < |t| ==> t[i] in t;
    }
  }

  lemma {:induction false} SortedOffsetsOf(registers: Registers, next: nat, byOffset: map<nat, string>)
    requires Laid(registers, next) && IndexedBy(registers, byOffset)
    ensures OffsetsOf(registers, SortedOffsets(byOffset, next))
  {
    OffsetsSorted(byOffset, next);
    forall k | k in SortedOffsets(byOffset, next)
      ensures exists n :: n in registers && registers[n].offset == k
    {
      assert byOffset[k] in registers;
    }
  }

  /** The position a binary search gives: of the offset, or where it would have to be put. */
  function SearchIndex(offsets: seq<nat>, offset: nat): (i: nat)
    ensures i <= |offsets|
    ensures forall j :: 0 <= j < i ==> offsets[j] < offset
    ensures i < |offsets| ==> offsets[i] >= offset
  {
    if offsets == [] || offsets[0] >= offset then 0 else 1 + SearchIndex(offsets[1..], offset)
  }

  /** A write of `len` bytes at `offset` does not reach the next register. */
  predicate InRange(offsets: seq<nat>, offset: nat, len: nat) {
    var i := SearchIndex(offsets, offset);
    i + 1 >= |offsets| || offset + len <= offsets[i + 1]
  }

  /** No register after the named one starts within `len` bytes of its start. */
  ghost predicate ShortOfNext(registers: Registers, name: string, len: nat)
    requires name in registers
  {
    forall m :: m in registers && registers[m].offset > registers[name].offset ==>
      registers[name].offset + len <= registers[m].offset
  }

  /** At the start of a register the range check is exact: it passes if and only if no later register is reached. */
  lemma {:induction false} RangeOfRegister(registers: Registers, offsets: seq<nat>, name: string, len: nat)
    requires OffsetsOf(registers, offsets) && name in registers
    ensures InRange(offsets, registers[name].offset, len) <==> ShortOfNext(registers, name, len)
  {
    var offset := registers[name].offset;
    var i := SearchIndex(offsets, offset);
    assert offset in offsets;
    if i + 1 < |offsets| {
      assert offsets[i + 1] in offsets;
      var n :| n in registers && registers[n].offset == offsets[i + 1];
      assert offsets[i] == offset;
      forall m | m in registers && registers[m].offset > offset
        ensures registers[m].offset >= offsets[i + 1]
      {
        var j :| 0 <= j < |offsets| && offsets[j] == registers[m].offset;
        assert j > i;
      }
    }
  }

  /** A write that stops short of the next register misses every other one. */
  lemma {:induction false} WriteMisses(registers: Registers, next: nat, name: string, len: nat, m: string)
    requires Laid(registers, next) && name in registers && m in registers && m != name
    ensures ShortOfNext(registers, name, len) ==>
              registers[name].offset + len <= registers[m].offset
                  || registers[m].offset + registers[m].width <= registers[name].offset
  {
    assert Before(registers[m], registers[name]) || Before(registers[name], registers[m]);
  }

  /** An access no wider than its register stops short of the next one. */
  lemma {:induction false} NarrowInRange(registers: Registers, next: nat, name: string, len: nat)
    requires Laid(registers, next) && name in registers && len <= registers[name].width
    ensures ShortOfNext(registers, name, len)
  {
    forall k | k in registers && registers[k].offset > registers[name].offset
      ensures registers[name].offset + len <= registers[k].offset
    {
      assert Before(registers[k], registers[name]) || Before(registers[name], registers[k]);
    }
  }

  const GLOBAL_REGISTER_SIZE: nat := 2 * 1024 * 1024

  datatype Outcome = Done | UnknownRegister | RangePanic

  lemma {:induction false} SliceKept(before: seq<Byte>, after: seq<Byte>, from: nat, len: nat)
    requires from + len <= |before| == |after| && forall j :: from <= j < from + len ==> after[j] == before[j]
    ensures after[from..from + len] == before[from..from + len]
  {}

  class RegisterFile {
    const inner: array<Byte>
    const registers: Registers
    const offsets: seq<nat>
    const globalRegisterOffset: nat
    ghost const next: nat

    ghost predicate Valid() {
      && Laid(registers, next) && OffsetsOf(registers, offsets)
      && (forall n :: n in registers ==> registers[n].offset + registers[n].width <= globalRegisterOffset)
      && inner.Length == globalRegisterOffset + GLOBAL_REGISTER_SIZE
    }

    constructor (context: BuildContext, byOffset: map<nat, string>, fileSize: nat)
      requires context.Valid() && IndexedBy(context.registers, byOffset) && IsFileSize(context.registers, fileSize)
      ensures Valid() && registers == context.registers && globalRegisterOffset == Align8(fileSize) && fresh(inner)
      ensures inner.Length == Align8(fileSize) + 0x20_0000 && forall i :: 0 <= i < inner.Length ==> inner[i] == 0
    {
      registers := context.registers;
      next := context.nextRegisterOffset;
      SortedOffsetsOf(context.registers, context.nextRegisterOffset, byOffset);
      offsets := SortedOffsets(byOffset, context.nextRegisterOffset);
      globalRegisterOffset := Align8(fileSize);
      inner := new Byte[Align8(fileSize) + GLOBAL_REGISTER_SIZE](_ => 0);
    }

    /** The first `len` bytes from a register's start. */
    ghost function Bytes(name: string, len: nat): seq<Byte>
      requires Valid() && name in registers && registers[name].offset + len <= inner.Length
      reads inner
    {
      inner[registers[name].offset..registers[name].offset + len]
    }

    ghost function Value(name: string): seq<Byte>
      requires Valid() && name in registers
      reads inner
    {
      Bytes(name, registers[name].width)
    }

    /** An access by name is allowed: the register exists, and the bytes neither reach the next register
        nor leave the file. */
    ghost predicate Allowed(name: string, len: nat) {
      name in registers && ShortOfNext(registers, name, len) && registers[name].offset + len <= inner.Length
    }

    lemma {:induction false} NarrowAllowed(name: string, len: nat)
      requires Valid() && name in registers && len <= registers[name].width
      ensures Allowed(name, len)
    {
      hide Laid, ShortOfNext, OffsetsOf;
      NarrowInRange(registers, next, name, len);
    }

    /** Whether an access by name is to unknown, allowed or refused bytes. */
    method Check(name: string, len: nat) returns (r: Outcome)
      requires Valid()
      ensures r.UnknownRegister? <==> name !in registers
      ensures r.Done? <==> Allowed(name, len)
    {
      hide InRange, OffsetsOf, Laid, ShortOfNext;
      if name !in registers {
        return UnknownRegister;
      }
      RangeOfRegister(registers, offsets, name, len);
      var offset := registers[name].offset;
      r := if InRange(offsets, offset, len) && offset + len <= inner.Length then Done else RangePanic;
    }

    method Store(offset: nat, value: seq<Byte>)
      requires offset + |value| <= inner.Length
      modifies inner
      ensures inner[offset..offset + |value|] == value
      ensures forall j :: 0 <= j < inner.Length && !(offset <= j < offset + |value|) ==> inner[j] == old(inner[j])
    {
      for i := 0 to |value|
        invariant forall j :: 0 <= j < i ==> inner[offset + j] == value[j]
        invariant forall j :: 0 <= j < inner.Length && !(offset <= j < offset + i) ==> inner[j] == old(inner[j])
      {
        inner[offset + i] := value[i];
      }
    }

    /** A write by name: one no wider than its register is made, reads back, and changes no other register.
        A wider one is refused exactly when it would reach the next register or leave the file. */
    method Write(name: string, value: seq<Byte>) returns (r: Outcome)
      requires Valid()
      modifies inner
      ensures r.UnknownRegister? <==> name !in registers
      ensures r.Done? <==> Allowed(name, |value|)
      ensures name in registers && |value| <= registers[name].width ==> r.Done?
      ensures !r.Done? ==> inner[..] == old(inner[..])
      ensures r.Done? ==> Bytes(name, |value|) == value
      ensures r.Done? ==>
                var from := registers[name].offset;
                forall j :: 0 <= j < inner.Length && !(from <= j < from + |value|) ==> inner[j] == old(inner[j])
      ensures r.Done? ==> forall m :: m in registers && m != name ==> Value(m) == old(Value(m))
    {
      hide InRange, OffsetsOf, Laid, ShortOfNext;
      if name in registers && |value| <= registers[name].width {
        NarrowAllowed(name, |value|);
      }
      r := Check(name, |value|);
      if r.Done? {
        Store(registers[name].offset, value);
        forall m | m in registers && m != name
          ensures Value(m) == old(Value(m))
        {
          WriteMisses(registers, next, name, |value|, m);
          SliceKept(old(inner[..]), inner[..], registers[m].offset, registers[m].width);
        }
      }
    }

    /** A read by name of `len` bytes: it gives what the file holds from the register's start on, is refused
        exactly when a write of as many bytes is, and so gives back what such a write put there. */
    method Read(name: string, len: nat) returns (r: Outcome, value: seq<Byte>)
      requires Valid()
      ensures r.UnknownRegister? <==> name !in registers
      ensures r.Done? <==> Allowed(name, len)
      ensures name in registers && len <= registers[name].width ==> r.Done?
      ensures value == if r.Done? then Bytes(name, len) else []
    {
      hide InRange, OffsetsOf, Laid, ShortOfNext;
      if name in registers && len <= registers[name].width {
        NarrowAllowed(name, len);
      }
      r := Check(name, len);
      value := [];
      if r.Done? {
        var offset := registers[name].offset;
        value := inner[offset..offset + len];
      }
    }
  }
}
