/** The ring buffer shared by one producer and one consumer: where bytes go, and the two operations. */
module RingBuffer {
  import opened Wrappers

  type Byte = bv8

  /** The slot of stream position `k`. */
  function Slot(capacity: nat, k: nat): (slot: nat)
    requires capacity > 0
    ensures slot < capacity
  {
    k % capacity
  }

  /** How many bytes can be written from the head to the end of the buffer or to the tail. */
  function FirstRoom(capacity: nat, head: nat, tail: nat): nat
    requires capacity > 0
  {
    var (h, t) := (Slot(capacity, head), Slot(capacity, tail));
    if h >= t then capacity - h else t - h
  }

  /** How many bytes can be written from the start of the buffer on. */
  function SecondRoom(capacity: nat, head: nat, tail: nat): nat
    requires capacity > 0
  {
    var (h, t) := (Slot(capacity, head), Slot(capacity, tail));
    if h >= t then t else 0
  }

  function WriteTotal(capacity: nat, head: nat, tail: nat, len: nat): nat
    requires capacity > 0
  {
    var room := FirstRoom(capacity, head, tail) + SecondRoom(capacity, head, tail);
    if room < len then room else len
  }

  /** Where byte `j` of a write goes. */
  function WriteSlot(capacity: nat, head: nat, tail: nat, j: nat): (slot: nat)
    requires capacity > 0 && j < FirstRoom(capacity, head, tail) + SecondRoom(capacity, head, tail)
    ensures slot < capacity
  {
    var first := FirstRoom(capacity, head, tail);
    if j < first then Slot(capacity, head) + j else j - first
  }

  /** How many bytes a read is shown; `None` where the code takes the positions to be unreachable. */
  function ReadLength(capacity: nat, head: nat, tail: nat): Option<nat>
    requires capacity > 0
  {
    var (h, t) := (Slot(capacity, head), Slot(capacity, tail));
    if h == t then None else if h > t then Some(h - t) else Some(capacity - t + h)
  }

  /** Where byte `j` of a read comes from: one piece, or two when the bytes wrap around. */
  function ReadSlot(capacity: nat, head: nat, tail: nat, j: nat): (slot: nat)
    requires capacity > 0 && ReadLength(capacity, head, tail).Some? && j < ReadLength(capacity, head, tail).value
    ensures slot < capacity
  {
    var (h, t) := (Slot(capacity, head), Slot(capacity, tail));
    if h > t || j < capacity - t then t + j else j - (capacity - t)
  }

  lemma {:induction false} Wrapped(capacity: nat, base: nat, j: nat)
    requires capacity > 0 && j < capacity
    ensures var s := Slot(capacity, base); Slot(capacity, base + j) == if s + j < capacity then s + j
              else s + j - capacity
  {
    var q, r := base / capacity, base % capacity;
    assert base + j == q * capacity + (r + j);
    if r + j < capacity {
      ModuloIs(base + j, capacity, q, r + j);
    } else {
      assert base + j == (q + 1) * capacity + (r + j - capacity);
      ModuloIs(base + j, capacity, q + 1, r + j - capacity);
    }
  }

  /** The stream starts at the start of the buffer, and each byte is in the slot after the one before, or at the
      start again. */
  lemma {:induction false} SlotsCount(capacity: nat, k: nat)
    requires capacity > 0
    ensures Slot(capacity, 0) == 0
    ensures Slot(capacity, k + 1) == if Slot(capacity, k) + 1 == capacity then 0 else Slot(capacity, k) + 1
  {
    if capacity > 1 {
      Wrapped(capacity, k, 1);
    }
  }

  /** Positions less than a lap apart never share a slot. */
  lemma {:induction false} SlotsDiffer(capacity: nat, a: nat, b: nat)
    requires capacity > 0 && a < b < a + capacity
    ensures Slot(capacity, a) != Slot(capacity, b)
  {
    Wrapped(capacity, a, b - a);
  }

  /** While the buffer is not full, a write fills the free space in stream order, up to the tail. */
  lemma {:induction false} WritesInOrder(capacity: nat, head: nat, tail: nat)
    requires capacity > 0 && tail <= head < tail + capacity
    ensures FirstRoom(capacity, head, tail) + SecondRoom(capacity, head, tail) == capacity - (head - tail)
    ensures forall j :: 0 <= j < capacity - (head - tail) ==>
              WriteSlot(capacity, head, tail, j) == Slot(capacity, head + j)
  {
    Wrapped(capacity, tail, head - tail);
    forall j | 0 <= j < capacity - (head - tail)
      ensures WriteSlot(capacity, head, tail, j) == Slot(capacity, head + j)
    {
      Wrapped(capacity, head, j);
    }
  }

  /** While the buffer is neither empty nor full, a read is shown what was written and not yet read. */
  lemma {:induction false} ReadsInOrder(capacity: nat, head: nat, tail: nat)
    requires capacity > 0 && tail < head < tail + capacity
    ensures ReadLength(capacity, head, tail) == Some(head - tail)
    ensures forall j :: 0 <= j < head - tail ==> ReadSlot(capacity, head, tail, j) == Slot(capacity, tail + j)
  {
    Wrapped(capacity, tail, head - tail);
    forall j | 0 <= j < head - tail
      ensures ReadSlot(capacity, head, tail, j) == Slot(capacity, tail + j)
    {
      Wrapped(capacity, tail, j);
    }
  }

  /** A full buffer looks empty to the writer and impossible to the reader. */
  lemma {:induction false} FullLooksEmpty(capacity: nat, tail: nat)
    requires capacity > 0
    ensures FirstRoom(capacity, tail + capacity, tail) + SecondRoom(capacity, tail + capacity, tail) == capacity
    ensures ReadLength(capacity, tail + capacity, tail) == None
  {
    ModuloIs(tail + capacity, capacity, tail / capacity + 1, tail % capacity);
  }

  /** What a read is shown. */
  datatype MaybeSplitBuffer = Single(buf: seq<Byte>) | Split(first: seq<Byte>, second: seq<Byte>)

  function Pieces(b: MaybeSplitBuffer): seq<Byte> {
    match b
    case Single(buf) => buf
    case Split(first, second) => first + second
  }

  /** Bytes `from` to `upto` of the stream, as they lie in the buffer. */
  ghost function Window(buffer: seq<Byte>, from: nat, upto: nat): (w: seq<Byte>)
    requires |buffer| > 0 && from <= upto
    ensures |w| == upto - from
  {
    seq(upto - from, j requires 0 <= j < upto - from => buffer[Slot(|buffer|, from + j)])
  }

  datatype Outcome = Shown(buffer: MaybeSplitBuffer) | Nothing | Unreachable

  /** `data` is in the slots from `head` on, and the slots from `tail` to `head` are as before. */
  ghost predicate Written(before: seq<Byte>, buffer: seq<Byte>, tail: nat, head: nat, data: seq<Byte>) {
    && |before| == |buffer| > 0 && tail <= head
    && (forall k :: head <= k < head + |data| ==> buffer[Slot(|buffer|, k)] == data[k - head])
    && forall k :: tail <= k < head ==> buffer[Slot(|buffer|, k)] == before[Slot(|buffer|, k)]
  }

  /** Filling the slots after `head` appends to the window. */
  lemma {:induction false} Appended(before: seq<Byte>, buffer: seq<Byte>, tail: nat, head: nat, data: seq<Byte>)
    requires Written(before, buffer, tail, head, data)
    ensures Window(buffer, tail, head + |data|) == Window(before, tail, head) + data
  {
    hide Slot;
  }

  /** Slot `i` is where some of the `len` bytes of a write go. */
  ghost predicate Hit(capacity: nat, head: nat, tail: nat, len: nat, i: nat)
    requires capacity > 0 && len <= FirstRoom(capacity, head, tail) + SecondRoom(capacity, head, tail)
  {
    exists j :: 0 <= j < len && WriteSlot(capacity, head, tail, j) == i
  }

  /** `data` is where a write puts it and every other slot is as before. */
  ghost predicate Overwritten(before: seq<Byte>, buffer: seq<Byte>, head: nat, tail: nat, data: seq<Byte>) {
    var n := |buffer|;
    && |before| == n > 0 && |data| <= FirstRoom(n, head, tail) + SecondRoom(n, head, tail)
    && (forall j :: 0 <= j < |data| ==> buffer[WriteSlot(n, head, tail, j)] == data[j])
    && forall i :: 0 <= i < n && !Hit(n, head, tail, |data|, i) ==> buffer[i] == before[i]
  }

  /** The two copies of a write put the bytes in their slots and touch no other. */
  lemma {:induction false} CopiesOverwrite(before: seq<Byte>, buffer: seq<Byte>, head: nat, tail: nat,
      data: seq<Byte>, first: nat)
    requires |before| == |buffer| > 0
               && first <= |data| <= FirstRoom(|buffer|, head, tail) + SecondRoom(|buffer|, head, tail)
    requires first == |data| || first == FirstRoom(|buffer|, head, tail)
    requires first <= FirstRoom(|buffer|, head, tail)
    requires forall j :: 0 <= j < first ==> buffer[Slot(|buffer|, head) + j] == data[j]
    requires forall j :: first <= j < |data| ==> buffer[j - first] == data[j]
    requires var h := Slot(|buffer|, head);
             forall i :: |data| - first <= i < |buffer| && !(h <= i < h + first) ==> buffer[i] == before[i]
    ensures Overwritten(before, buffer, head, tail, data)
  {
    hide Slot;
    forall i | 0 <= i < |buffer| && !Hit(|buffer|, head, tail, |data|, i)
      ensures buffer[i] == before[i]
    {
      if i < |data| - first || Slot(|buffer|, head) <= i < Slot(|buffer|, head) + first {
        var j := CopiedTo(|buffer|, head, tail, |data|, first, i);
      }
    }
  }

  /** While the buffer is not full, a write touches no unread byte. */
  lemma {:induction false} OverwrittenFree(before: seq<Byte>, buffer: seq<Byte>, tail: nat, head: nat, data: seq<Byte>)
    requires Overwritten(before, buffer, head, tail, data) && tail <= head < tail + |buffer|
    ensures Written(before, buffer, tail, head, data)
  {
    hide Slot;
    var n := |buffer|;
    WritesInOrder(n, head, tail);
    forall k | head <= k < head + |data|
      ensures buffer[Slot(n, k)] == data[k - head]
    {
      assert WriteSlot(n, head, tail, k - head) == Slot(n, k);
    }
    forall k | tail <= k < head
      ensures buffer[Slot(n, k)] == before[Slot(n, k)]
    {
      forall j | 0 <= j < |data|
        ensures WriteSlot(n, head, tail, j) != Slot(n, k)
      {
        SlotsDiffer(n, k, head + j);
      }
    }
  }

  /** A write to a full buffer fills it in stream order from the oldest unread byte on. */
  lemma {:induction false} FullWritesFromTail(n: nat, head: nat, tail: nat, j: nat)
    requires head == tail + n && j < n
    ensures j < FirstRoom(n, head, tail) + SecondRoom(n, head, tail) && WriteSlot(n, head, tail, j) == Slot(n, tail + j)
  {
    FullLooksEmpty(n, tail);
    ModuloIs(tail + n, n, tail / n + 1, tail % n);
    Wrapped(n, tail, j);
  }

  /** A write to a full buffer overwrites the oldest unread bytes and no others. */
  lemma {:induction false} OverwrittenFull(before: seq<Byte>, buffer: seq<Byte>, head: nat, tail: nat, data: seq<Byte>)
    requires Overwritten(before, buffer, head, tail, data) && head == tail + |buffer|
    ensures |data| <= |buffer| && Window(buffer, tail, head) == data + Window(before, tail, head)[|data|..]
  {
    hide Slot;
    var n := |buffer|;
    FullLooksEmpty(n, tail);
    var was, now := Window(before, tail, head), Window(buffer, tail, head);
    forall k | 0 <= k < n
      ensures now[k] == (data + was[|data|..])[k]
    {
      FullWritesFromTail(n, head, tail, k);
      forall j | 0 <= j < |data| && WriteSlot(n, head, tail, j) == Slot(n, tail + k)
        ensures k < |data|
      {
        FullWritesFromTail(n, head, tail, j);
        if j < k {
          SlotsDiffer(n, tail + j, tail + k);
        }
      }
    }
  }

  /** Each slot of the two copies is where some byte of the write goes. */
  lemma {:induction false} CopiedTo(n: nat, head: nat, tail: nat, len: nat, first: nat, i: nat) returns (j: nat)
    requires n > 0 && first <= len <= FirstRoom(n, head, tail) + SecondRoom(n, head, tail)
    requires first <= FirstRoom(n, head, tail) && (first == len || first == FirstRoom(n, head, tail))
    requires i < len - first || Slot(n, head) <= i < Slot(n, head) + first
    ensures j < len && WriteSlot(n, head, tail, j) == i
  {
    j := if i < len - first then first + i else i - Slot(n, head);
  }

  /** The bytes from the tail's slot to the head's, in two pieces when they wrap around. */
  function Unread(buffer: seq<Byte>, head: nat, tail: nat): MaybeSplitBuffer
    requires |buffer| > 0 && Slot(|buffer|, head) != Slot(|buffer|, tail)
  {
    var (h, t) := (Slot(|buffer|, head), Slot(|buffer|, tail));
    if h > t then Single(buffer[t..h]) else Split(buffer[t..], buffer[..h])
  }

  /** What is shown is in one piece exactly if it does not wrap around; otherwise the first piece ends the
      buffer and the second starts it. */
  lemma {:induction false} UnreadShape(buffer: seq<Byte>, head: nat, tail: nat)
    requires |buffer| > 0 && Slot(|buffer|, head) != Slot(|buffer|, tail)
    ensures match Unread(buffer, head, tail)
            case Single(_) => head % |buffer| > tail % |buffer|
            case Split(first, second) =>
              && |first| == |buffer| - tail % |buffer| && |second| == head % |buffer|
              && head % |buffer| < tail % |buffer|
  {}

  /** What a read is shown is the window from the tail to the head. */
  lemma {:induction false} ShowsWindow(buffer: seq<Byte>, head: nat, tail: nat)
    requires |buffer| > 0 && tail < head < tail + |buffer|
    ensures Slot(|buffer|, head) != Slot(|buffer|, tail)
    ensures Pieces(Unread(buffer, head, tail)) == Window(buffer, tail, head)
  {
    hide Slot;
    var n := |buffer|;
    SlotsDiffer(n, tail, head);
    ReadsInOrder(n, head, tail);
    forall j | 0 <= j < head - tail
      ensures Window(buffer, tail, head)[j] == buffer[ReadSlot(n, head, tail, j)]
    {
    }
  }

  lemma {:induction false} WindowDrop(buffer: seq<Byte>, from: nat, upto: nat, count: nat)
    requires |buffer| > 0 && from + count <= upto
    ensures Window(buffer, from + count, upto) == Window(buffer, from, upto)[count..]
  {
    hide Slot;
  }

  class Ring {
    const buffer: array<Byte>
    var head: nat
    var tail: nat

    ghost predicate Valid()
      reads this
    {
      buffer.Length > 0 && tail <= head
    }

    /** The bytes written and not yet read. */
    ghost function Contents(): seq<Byte>
      requires Valid()
      reads this, buffer
    {
      Window(buffer[..], tail, head)
    }

    constructor (capacity: nat)
      requires capacity > 0
      ensures Valid() && Contents() == [] && fresh(buffer) && buffer.Length == capacity
    {
      buffer := new Byte[capacity];
      head, tail := 0, 0;
    }

    /** Copies `data[from..upto]` to `buffer[at..]`. */
    method Copy(data: seq<Byte>, from: nat, upto: nat, at: nat)
      requires from <= upto <= |data| && at + (upto - from) <= buffer.Length
      modifies buffer
      ensures forall i :: 0 <= i < buffer.Length && !(at <= i < at + (upto - from)) ==> buffer[i] == old(buffer[i])
      ensures forall j :: from <= j < upto ==> buffer[at + (j - from)] == data[j]
    {
      for k := from to upto
        invariant forall i :: 0 <= i < buffer.Length && !(at <= i < at + (k - from)) ==> buffer[i] == old(buffer[i])
        invariant forall j :: from <= j < k ==> buffer[at + (j - from)] == data[j]
      {
        buffer[at + (k - from)] := data[k];
      }
    }

    /** Writes as much of `data` as fits; `None` where the code panics. While the buffer is not full the
        bytes written are appended to its contents; when it is full they replace the oldest of them. */
    method Write(data: seq<Byte>) returns (r: Option<nat>)
      requires Valid()
      modifies this`head, buffer
      ensures Valid() && (r.None? <==> |data| > buffer.Length)
      ensures r.None? ==> head == old(head) && buffer[..] == old(buffer[..])
      ensures r.Some? ==> head == old(head) + r.value && r.value <= |data|
      ensures r.Some? ==> Overwritten(old(buffer[..]), buffer[..], old(head), tail, data[..r.value])
      ensures r.Some? && old(head) - tail == buffer.Length ==>
                r.value == |data| && Window(buffer[..], tail, old(head)) == data + old(Contents())[|data|..]
      ensures r.Some? && old(head) - tail < buffer.Length ==>
                && r.value == (if |data| < buffer.Length - (old(head) - tail) then |data|
                     else buffer.Length - (old(head) - tail))
                && Contents() == old(Contents()) + data[..r.value]
    {
      hide Slot, Written, Window, Overwritten;
      var capacity := buffer.Length;
      if |data| > capacity {
        return None;
      }
      var first := FirstRoom(capacity, head, tail);
      var total := WriteTotal(capacity, head, tail, |data|);
      var firstWrite := if first < |data| then first else |data|;
      ghost var before := buffer[..];
      Copy(data, 0, firstWrite, Slot(capacity, head));
      if total > firstWrite {
        Copy(data, firstWrite, total, 0);
      }
      CopiesOverwrite(before, buffer[..], head, tail, data[..total], firstWrite);
      if head - tail < capacity {
        WritesInOrder(capacity, head, tail);
        OverwrittenFree(before, buffer[..], tail, head, data[..total]);
        Appended(before, buffer[..], tail, head, data[..total]);
      } else if head - tail == capacity {
        FullLooksEmpty(capacity, tail);
        assert data[..total] == data;
        OverwrittenFull(before, buffer[..], head, tail, data);
      }
      head := head + total;
      r := Some(total);
    }

    /** Shows the unread bytes to `f`, which says how many of them it is done with. While the buffer is not
        full, what is shown is its contents. */
    method Read(f: MaybeSplitBuffer -> nat) returns (r: Outcome)
      requires Valid()
      modifies this`tail
      ensures r.Nothing? <==> old(Contents()) == []
      ensures r.Shown? ==> tail == old(tail) + f(r.buffer)
      ensures !r.Shown? ==> tail == old(tail)
      ensures 0 < head - old(tail) < buffer.Length ==> r.Shown? && Pieces(r.buffer) == old(Contents())
      ensures match r
              case Shown(Single(_)) => head % buffer.Length > old(tail) % buffer.Length
              case Shown(Split(first, second)) =>
                && |first| == buffer.Length - old(tail) % buffer.Length && |second| == head % buffer.Length
                && head % buffer.Length < old(tail) % buffer.Length
              case _ => true
      ensures 0 < head - old(tail) < buffer.Length && f(r.buffer) <= |Pieces(r.buffer)| ==>
                Valid() && Contents() == old(Contents())[f(r.buffer)..]
      ensures head - old(tail) == buffer.Length ==> r.Unreachable?
    {
      hide Slot, Window, Unread, Pieces;
      r := Nothing;
      if head != tail {
        var capacity := buffer.Length;
        if head - tail < capacity {
          ShowsWindow(buffer[..], head, tail);
        } else if head - tail == capacity {
          FullLooksEmpty(capacity, tail);
        }
        if Slot(capacity, head) == Slot(capacity, tail) {
          return Unreachable;
        }
        UnreadShape(buffer[..], head, tail);
        var shown := Unread(buffer[..], head, tail);
        var count := f(shown);
        if head - tail < capacity && count <= head - tail {
          WindowDrop(buffer[..], tail, head, count);
        }
        tail := tail + count;
        r := Shown(shown);
      }
    }
  }
}
