/** The ring buffer as a protocol: producer and consumer take turns step by step, in any order. */
module RingProtocol {
  import opened RingBuffer

  datatype Producer =
    | Idle
    | SawHead(data: seq<Byte>, h: nat)
    | Copying(data: seq<Byte>, h: nat, t: nat, done: nat)
    | Overflow

  datatype Consumer =
    | Resting
    | SawTop(h: nat)
    | Reading(h: nat, t: nat, seen: seq<Byte>)
    | Unreachable

  /** The shared memory, where both sides are, and the bytes published and taken so far. */
  datatype State = State(
    buffer: seq<Byte>, head: nat, tail: nat, producer: Producer, consumer: Consumer,
    produced: seq<Byte>, consumed: seq<Byte>)

  datatype Action =
    | BeginWrite(data: seq<Byte>)
    | ReadTail
    | CopyByte
    | PublishHead
    | BeginRead
    | ReadOwnTail
    | ReadByte
    | PublishTail(count: nat)

  function Total(capacity: nat, p: Producer): nat
    requires capacity > 0 && p.Copying?
  {
    WriteTotal(capacity, p.h, p.t, |p.data|)
  }

  /** One step of either side; an action its side is not ready for does nothing. */
  function Apply(s: State, a: Action): State {
    var n := |s.buffer|;
    if n == 0 then s
    else
      match a
      case BeginWrite(data) => if s.producer.Idle? then s.(producer := SawHead(data, s.head)) else s
      case ReadTail =>
        if !s.producer.SawHead? then s
        else if |s.producer.data| > n then s.(producer := Overflow)
        else s.(producer := Copying(s.producer.data, s.producer.h, s.tail, 0))
      case CopyByte =>
        if !s.producer.Copying? || s.producer.done >= Total(n, s.producer) then s
        else
          var p := s.producer;
          s.(buffer := s.buffer[WriteSlot(n, p.h, p.t, p.done) := p.data[p.done]], producer := p.(done := p.done + 1))
      case PublishHead =>
        if !s.producer.Copying? || s.producer.done != Total(n, s.producer) then s
        else
          var p := s.producer;
          s.(head := p.h + p.done, producer := Idle, produced := s.produced + p.data[..p.done])
      case BeginRead => if s.consumer.Resting? then s.(consumer := SawTop(s.head)) else s
      case ReadOwnTail =>
        if !s.consumer.SawTop? then s
        else if s.consumer.h == s.tail then s.(consumer := Resting)
        else if ReadLength(n, s.consumer.h, s.tail).None? then s.(consumer := Consumer.Unreachable)
        else s.(consumer := Reading(s.consumer.h, s.tail, []))
      case ReadByte =>
        if !s.consumer.Reading? then s
        else
          var c := s.consumer;
          var len := ReadLength(n, c.h, c.t);
          if len.None? || |c.seen| >= len.value then s
          else s.(consumer := c.(seen := c.seen + [s.buffer[ReadSlot(n, c.h, c.t, |c.seen|)]]))
      case PublishTail(count) =>
        if !s.consumer.Reading? || count > |s.consumer.seen| then s
        else
          var c := s.consumer;
          s.(tail := c.t + count, consumer := Resting, consumed := s.consumed + c.seen[..count])
  }

  function Run(s: State, actions: seq<Action>): State
    decreases actions
  {
    if actions == [] then s else Run(Apply(s, actions[0]), actions[1..])
  }

  ghost predicate HasRoom(s: State) {
    s.head - s.tail < |s.buffer|
  }

  /** Occupancy stays strictly below capacity in every state of the run. */
  ghost predicate NeverFull(s: State, actions: seq<Action>)
    decreases actions
  {
    HasRoom(s) && (actions != [] ==> NeverFull(Apply(s, actions[0]), actions[1..]))
  }

  ghost predicate SharedOk(s: State) {
    && |s.buffer| > 0 && s.head == |s.produced| && s.tail == |s.consumed| && s.tail <= s.head && HasRoom(s)
    && s.consumed == s.produced[..s.tail]
    && forall k :: s.tail <= k < s.head ==> s.buffer[Slot(|s.buffer|, k)] == s.produced[k]
  }

  ghost predicate ProducerOk(s: State)
    requires |s.buffer| > 0
  {
    match s.producer
    case SawHead(data, h) => h == s.head
    case Copying(data, h, t, done) =>
      && h == s.head && t <= s.tail && h - t < |s.buffer| && |data| <= |s.buffer|
           && done <= Total(|s.buffer|, s.producer)
      && forall k :: h <= k < h + done ==> s.buffer[Slot(|s.buffer|, k)] == data[k - h]
    case _ => true
  }

  ghost predicate ConsumerOk(s: State)
    requires |s.buffer| > 0
  {
    match s.consumer
    case SawTop(h) => s.tail <= h <= s.head
    case Reading(h, t, seen) => t == s.tail < h <= s.head == |s.produced| && |seen| <= h - t
        && seen == s.produced[t..t + |seen|]
    case Unreachable => false
    case Resting => true
  }

  ghost predicate Inv(s: State) {
    SharedOk(s) && ProducerOk(s) && ConsumerOk(s)
  }

  function Start(buffer: seq<Byte>): State {
    State(buffer, 0, 0, Idle, Resting, [], [])
  }

  /** A byte being copied goes to no slot that holds an unread byte. */
  lemma {:induction false} CopyMisses(s: State, k: nat)
    requires Inv(s) && s.producer.Copying? && s.producer.done < Total(|s.buffer|, s.producer)
               && s.tail <= k < s.head + s.producer.done
    ensures var p := s.producer;
            WriteSlot(|s.buffer|, p.h, p.t, p.done) == Slot(|s.buffer|, p.h + p.done) != Slot(|s.buffer|, k)
  {
    hide Slot;
    var p := s.producer;
    WritesInOrder(|s.buffer|, p.h, p.t);
    SlotsDiffer(|s.buffer|, k, p.h + p.done);
  }

  lemma {:induction false} CopyKeeps(s: State)
    requires Inv(s) && s.producer.Copying? && s.producer.done < Total(|s.buffer|, s.producer)
    ensures Inv(Apply(s, CopyByte))
  {
    hide Slot;
    var p, s', n := s.producer, Apply(s, CopyByte), |s.buffer|;
    WritesInOrder(n, p.h, p.t);
    forall k | s.tail <= k < s.head + p.done
      ensures s'.buffer[Slot(n, k)] == s.buffer[Slot(n, k)]
    {
      CopyMisses(s, k);
    }
  }

  /** Publishing the head makes the copied bytes part of the stream. */
  lemma {:induction false} PublishKeeps(s: State)
    requires Inv(s) && HasRoom(Apply(s, PublishHead))
    ensures Inv(Apply(s, PublishHead))
  {
    hide Slot, FirstRoom, SecondRoom;
    var s' := Apply(s, PublishHead);
    if s.producer.Copying? && s' != s {
      forall k | s'.tail <= k < s'.head
        ensures s'.buffer[Slot(|s.buffer|, k)] == s'.produced[k]
      {
      }
    }
  }

  /** The consumer sees the stream from its tail on, whatever the producer does meanwhile. */
  lemma {:induction false} ReadKeeps(s: State)
    requires Inv(s)
    ensures Inv(Apply(s, ReadByte))
  {
    hide Slot;
    if s.consumer.Reading? {
      var c := s.consumer;
      ReadsInOrder(|s.buffer|, c.h, c.t);
      if |c.seen| < c.h - c.t {
        assert ReadSlot(|s.buffer|, c.h, c.t, |c.seen|) == Slot(|s.buffer|, c.t + |c.seen|);
      }
    }
  }

  lemma {:induction false} ReadOwnTailKeeps(s: State)
    requires Inv(s)
    ensures Inv(Apply(s, ReadOwnTail))
  {
    if s.consumer.SawTop? && s.tail < s.consumer.h {
      ReadsInOrder(|s.buffer|, s.consumer.h, s.tail);
    }
  }

  lemma {:induction false} Prefixed(all: seq<Byte>, from: nat, seen: seq<Byte>, count: nat)
    requires count <= |seen| && from + |seen| <= |all| && seen == all[from..from + |seen|]
    ensures all[..from] + seen[..count] == all[..from + count]
  {}

  /** Publishing the tail takes the bytes read off the front of the stream. */
  lemma {:induction false} PublishTailKeeps(s: State, count: nat)
    requires Inv(s)
    ensures Inv(Apply(s, PublishTail(count)))
  {
    hide Slot;
    if s.consumer.Reading? && count <= |s.consumer.seen| {
      Prefixed(s.produced, s.tail, s.consumer.seen, count);
    }
  }

  /** Every step keeps the invariant while the buffer does not become full. */
  lemma {:induction false} StepKeeps(s: State, a: Action)
    requires Inv(s) && HasRoom(Apply(s, a))
    ensures Inv(Apply(s, a))
  {
    hide Slot;
    match a
    case CopyByte =>
      if s.producer.Copying? && s.producer.done < Total(|s.buffer|, s.producer) {
        CopyKeeps(s);
      }
    case PublishHead => PublishKeeps(s);
    case ReadByte => ReadKeeps(s);
    case ReadOwnTail => ReadOwnTailKeeps(s);
    case PublishTail(count) => PublishTailKeeps(s, count);
    case _ =>
  }

  lemma {:induction false} RunKeeps(s: State, actions: seq<Action>)
    requires Inv(s) && NeverFull(s, actions)
    ensures Inv(Run(s, actions))
    decreases actions
  {
    if actions != [] {
      StepKeeps(s, actions[0]);
      RunKeeps(Apply(s, actions[0]), actions[1..]);
    }
  }

  /** In every run that never fills the buffer, the bytes taken are a prefix of the bytes written, the
      bytes being read are those of the stream, the two sides never touch the same slot, and the reader
      never meets positions it takes to be impossible. */
  lemma {:induction false} RunSafe(buffer: seq<Byte>, actions: seq<Action>)
    requires |buffer| > 0 && NeverFull(Start(buffer), actions)
    ensures var s := Run(Start(buffer), actions);
            && s.consumed <= s.produced && !s.consumer.Unreachable?
            && (s.consumer.Reading? ==> s.consumed + s.consumer.seen <= s.produced)
            && Disjoint(s)
  {
    RunKeeps(Start(buffer), actions);
    var s := Run(Start(buffer), actions);
    SidesDisjoint(s);
  }

  /** No slot is both written by the write under way and shown to the read under way. */
  ghost predicate Disjoint(s: State) {
    var n := |s.buffer|;
    n > 0 && (s.producer.Copying? && s.consumer.Reading? && ReadLength(n, s.consumer.h, s.consumer.t).Some? ==>
      forall i, j :: 0 <= i < Total(n, s.producer) && 0 <= j < ReadLength(n, s.consumer.h, s.consumer.t).value ==>
        WriteSlot(n, s.producer.h, s.producer.t, i) != ReadSlot(n, s.consumer.h, s.consumer.t, j))
  }

  lemma {:induction false} SidesDisjoint(s: State)
    requires Inv(s)
    ensures Disjoint(s)
  {
    hide Slot;
    if s.producer.Copying? && s.consumer.Reading? {
      var p, c, n := s.producer, s.consumer, |s.buffer|;
      WritesInOrder(n, p.h, p.t);
      ReadsInOrder(n, c.h, c.t);
      forall i, j | 0 <= i < Total(n, p) && 0 <= j < c.h - c.t
        ensures WriteSlot(n, p.h, p.t, i) != ReadSlot(n, c.h, c.t, j)
      {
        SlotsDiffer(n, c.t + j, p.h + i);
      }
    }
  }

  /** A write about to look at the tail finds more room than it needs. */
  ghost predicate Fits(s: State) {
    s.producer.SawHead? ==> |s.producer.data| < |s.buffer| - (s.producer.h - s.tail)
  }

  /** Every write of the run has fewer bytes than there is room for when it looks. */
  ghost predicate WritesFit(s: State, actions: seq<Action>)
    decreases actions
  {
    actions != [] ==> (actions[0].ReadTail? ==> Fits(s)) && WritesFit(Apply(s, actions[0]), actions[1..])
  }

  /** The write under way leaves a free slot. */
  ghost predicate LeavesRoom(s: State) {
    s.producer.Copying? ==> |s.producer.data| < |s.buffer| - (s.producer.h - s.producer.t)
  }

  lemma {:induction false} FittingStep(s: State, a: Action)
    requires Inv(s) && LeavesRoom(s) && (a.ReadTail? ==> Fits(s))
    ensures HasRoom(Apply(s, a)) && LeavesRoom(Apply(s, a))
  {}

  /** If every write fits with a byte to spare, the buffer is never full. */
  lemma {:induction false} FittingNeverFull(s: State, actions: seq<Action>)
    requires Inv(s) && LeavesRoom(s) && WritesFit(s, actions)
    ensures NeverFull(s, actions)
    decreases actions
  {
    if actions != [] {
      FittingStep(s, actions[0]);
      StepKeeps(s, actions[0]);
      FittingNeverFull(Apply(s, actions[0]), actions[1..]);
    }
  }

  function CopyBytes(k: nat): seq<Action> {
    if k == 0 then [] else [CopyByte] + CopyBytes(k - 1)
  }

  lemma {:induction false} RunAppend(s: State, a: seq<Action>, b: seq<Action>)
    ensures Run(s, a + b) == Run(Run(s, a), b)
    decreases a
  {
    if a == [] {
      assert a + b == b;
    } else {
      assert (a + b)[0] == a[0] && (a + b)[1..] == a[1..] + b;
      RunAppend(Apply(s, a[0]), a[1..], b);
    }
  }

  lemma {:induction false} CopiesAll(s: State, k: nat)
    requires |s.buffer| > 0 && s.producer.Copying? && k == Total(|s.buffer|, s.producer) - s.producer.done
    ensures var s' := Run(s, CopyBytes(k));
            s' == s.(buffer := s'.buffer, producer := s.producer.(done := s.producer.done + k))
                && |s'.buffer| == |s.buffer|
    decreases k
  {
    if k > 0 {
      var s1 := Apply(s, CopyByte);
      assert CopyBytes(k)[0] == CopyByte && CopyBytes(k)[1..] == CopyBytes(k - 1);
      CopiesAll(s1, k - 1);
    }
  }

  /** A whole write by itself, followed by the start of a read. */
  function WriteThenRead(s: State): seq<Action>
    requires |s.buffer| > 0 && s.producer.SawHead?
  {
    [ReadTail] + CopyBytes(WriteTotal(|s.buffer|, s.producer.h, s.tail, |s.producer.data|)) + [PublishHead, BeginRead,
        ReadOwnTail]
  }

  lemma {:induction false} RunLast(s: State)
    ensures Run(s, [PublishHead, BeginRead, ReadOwnTail]) == Apply(Apply(Apply(s, PublishHead), BeginRead), ReadOwnTail)
  {
    var a := [PublishHead, BeginRead, ReadOwnTail];
    assert a[1..] == [BeginRead, ReadOwnTail] && a[1..][1..] == [ReadOwnTail] && a[1..][1..][1..] == [];
  }

  /** Once a write is copied, publishing it and starting to read fails exactly if the buffer is then full. */
  lemma {:induction false} FullUnreachable(s: State)
    requires |s.buffer| > 0 && s.producer.Copying? && s.producer.done == Total(|s.buffer|, s.producer)
               && s.consumer.Resting?
    requires s.tail <= s.producer.h && s.producer.h + s.producer.done <= s.tail + |s.buffer|
    ensures Apply(Apply(Apply(s, PublishHead), BeginRead), ReadOwnTail).consumer.Unreachable?
            <==> s.producer.h + s.producer.done == s.tail + |s.buffer|
  {
    hide Slot, Total;
    var n, head := |s.buffer|, s.producer.h + s.producer.done;
    if head == s.tail + n {
      FullLooksEmpty(n, s.tail);
    } else if head > s.tail {
      ReadsInOrder(n, head, s.tail);
    }
  }

  lemma {:induction false} WriteThenReadRuns(s: State)
    requires |s.buffer| > 0 && s.producer.SawHead? && |s.producer.data| <= |s.buffer|
    ensures var k := WriteTotal(|s.buffer|, s.producer.h, s.tail, |s.producer.data|);
            var s' := Run(Apply(s, ReadTail), CopyBytes(k));
            && Run(s, WriteThenRead(s)) == Apply(Apply(Apply(s', PublishHead), BeginRead), ReadOwnTail)
            && s' == s.(buffer := s'.buffer, producer := Copying(s.producer.data, s.producer.h, s.tail, k))
            && |s'.buffer| == |s.buffer|
  {
    hide Slot, WriteTotal;
    var k := WriteTotal(|s.buffer|, s.producer.h, s.tail, |s.producer.data|);
    var s1 := Apply(s, ReadTail);
    CopiesAll(s1, k);
    RunAppend(s, [ReadTail], CopyBytes(k));
    RunAppend(s, [ReadTail] + CopyBytes(k), [PublishHead, BeginRead, ReadOwnTail]);
    assert Run(s, [ReadTail]) == Run(s1, []);
    RunLast(Run(s1, CopyBytes(k)));
  }

  /** The read after an undisturbed write meets impossible positions exactly when the write did not fit
      with a byte to spare. */
  lemma {:induction false} FullExactly(s: State)
    requires Inv(s) && s.producer.SawHead? && |s.producer.data| <= |s.buffer| && s.consumer.Resting?
    ensures Run(s, WriteThenRead(s)).consumer.Unreachable? <==> !Fits(s)
  {
    hide Slot, Apply, Run, CopyBytes, WriteThenRead;
    WritesInOrder(|s.buffer|, s.producer.h, s.tail);
    WriteThenReadRuns(s);
    FullUnreachable(Run(Apply(s, ReadTail),
        CopyBytes(WriteTotal(|s.buffer|, s.producer.h, s.tail, |s.producer.data|))));
  }

  /** All the steps of a write of `k` bytes of `data`. */
  function WholeWrite(data: seq<Byte>, k: nat): seq<Action> {
    [BeginWrite(data), ReadTail] + CopyBytes(k) + [PublishHead]
  }

  lemma {:induction false} CopiesKeep(s: State, k: nat)
    requires Inv(s)
    ensures Inv(Run(s, CopyBytes(k)))
    decreases k
  {
    if k > 0 {
      assert CopyBytes(k)[0] == CopyByte && CopyBytes(k)[1..] == CopyBytes(k - 1);
      if s.producer.Copying? && s.producer.done < Total(|s.buffer|, s.producer) {
        CopyKeeps(s);
      }
      CopiesKeep(Apply(s, CopyByte), k - 1);
    }
  }

  lemma {:induction false} RunOne(s: State, a: Action)
    ensures Run(s, [a]) == Apply(s, a)
  {
    assert [a][1..] == [];
  }

  lemma {:induction false} RunAround(s: State, a: Action, b: Action, mid: seq<Action>, c: Action)
    ensures Run(s, [a, b] + mid + [c]) == Apply(Run(Apply(Apply(s, a), b), mid), c)
  {
    hide Apply;
    RunAppend(s, [a, b] + mid, [c]);
    RunAppend(s, [a, b], mid);
    assert [a, b] == [a] + [b];
    RunAppend(s, [a], [b]);
    RunOne(s, a);
    RunOne(Apply(s, a), b);
    RunOne(Run(s, [a, b] + mid), c);
  }

  /** A write that has looked at both positions, with `k` bytes to copy. */
  lemma {:induction false} WriteBegins(s: State, data: seq<Byte>, k: nat)
    requires Inv(s) && s.producer.Idle? && |data| <= |s.buffer|
    requires k == if |data| < |s.buffer| - (s.head - s.tail) then |data| else |s.buffer| - (s.head - s.tail)
    ensures var s1 := Apply(Apply(s, BeginWrite(data)), ReadTail);
            s1 == s.(producer := Copying(data, s.head, s.tail, 0)) && Inv(s1)
    ensures forall done :: Total(|s.buffer|, Copying(data, s.head, s.tail, done)) == k
  {
    WritesInOrder(|s.buffer|, s.head, s.tail);
    hide Slot;
  }

  /** Left to itself, a write publishes as many of its bytes as there is room for, in their slots, and changes
      nothing else. */
  lemma {:induction false} WriteCompletes(s: State, data: seq<Byte>, k: nat)
    requires Inv(s) && s.producer.Idle? && |data| <= |s.buffer|
    requires k == if |data| < |s.buffer| - (s.head - s.tail) then |data| else |s.buffer| - (s.head - s.tail)
    ensures var s' := Run(s, WholeWrite(data, k));
            && s' == s.(buffer := s'.buffer, head := s.head + k, produced := s.produced + data[..k])
            && |s'.buffer| == |s.buffer|
            && (forall p :: s.tail <= p < s.head ==> s'.buffer[Slot(|s.buffer|, p)] == s.produced[p])
            && forall p :: s.head <= p < s.head + k ==> s'.buffer[Slot(|s.buffer|, p)] == data[p - s.head]
  {
    WriteBegins(s, data, k);
    var s1 := Apply(Apply(s, BeginWrite(data)), ReadTail);
    CopiesAll(s1, k);
    CopiesKeep(s1, k);
    RunAround(s, BeginWrite(data), ReadTail, CopyBytes(k), PublishHead);
    hide Slot, Total, Run, CopyBytes;
    var s2 := Run(s1, CopyBytes(k));
    assert s2.producer == Copying(data, s.head, s.tail, k);
  }

  function ReadBytes(k: nat): seq<Action> {
    if k == 0 then [] else [ReadByte] + ReadBytes(k - 1)
  }

  /** All the steps of a read of `k` bytes of which `count` are taken. */
  function WholeRead(k: nat, count: nat): seq<Action> {
    [BeginRead, ReadOwnTail] + ReadBytes(k) + [PublishTail(count)]
  }

  lemma {:induction false} ReadsOne(s: State)
    requires Inv(s) && s.consumer.Reading? && |s.consumer.seen| < s.consumer.h - s.consumer.t
    ensures var c := s.consumer;
            && Apply(s, ReadByte) == s.(consumer := c.(seen := s.produced[c.t..c.t + |c.seen| + 1]))
            && Inv(Apply(s, ReadByte))
  {
    ReadKeeps(s);
    ReadsInOrder(|s.buffer|, s.consumer.h, s.consumer.t);
    hide Slot;
  }

  lemma {:induction false} ReadsAll(s: State, k: nat)
    requires Inv(s) && s.consumer.Reading? && k == s.consumer.h - s.consumer.t - |s.consumer.seen|
    ensures var c := s.consumer;
            Run(s, ReadBytes(k)) == s.(consumer := c.(seen := s.produced[c.t..c.h]))
    decreases k
  {
    hide Apply, SharedOk, ProducerOk;
    if k > 0 {
      assert ReadBytes(k)[0] == ReadByte && ReadBytes(k)[1..] == ReadBytes(k - 1);
      ReadsOne(s);
      ReadsAll(Apply(s, ReadByte), k - 1);
    }
  }

  lemma {:induction false} ReadBegins(s: State)
    requires Inv(s) && s.consumer.Resting? && s.tail < s.head
    ensures var s1 := Apply(Apply(s, BeginRead), ReadOwnTail);
            s1 == s.(consumer := Reading(s.head, s.tail, [])) && Inv(s1)
  {
    ReadsInOrder(|s.buffer|, s.head, s.tail);
    hide Slot;
  }

  lemma {:induction false} ReadEnds(s: State, s2: State, count: nat)
    requires |s.buffer| > 0 && s.consumer.Resting? && s.tail <= s.head == |s.produced| && count <= s.head - s.tail
    requires s2 == s.(consumer := Reading(s.head, s.tail, s.produced[s.tail..s.head]))
    ensures Apply(s2, PublishTail(count)) ==
            s.(tail := s.tail + count, consumed := s.consumed + s.produced[s.tail..s.tail + count])
  {
    assert s2.consumer.seen[..count] == s.produced[s.tail..s.tail + count];
  }

  /** Left to itself, a read takes the next bytes of the stream and changes nothing else. */
  lemma {:induction false} ReadCompletes(s: State, count: nat)
    requires Inv(s) && s.consumer.Resting? && s.tail < s.head && count <= s.head - s.tail
    ensures Run(s, WholeRead(s.head - s.tail, count)) ==
            s.(tail := s.tail + count, consumed := s.consumed + s.produced[s.tail..s.tail + count])
  {
    assert |s.buffer| > 0 && s.head == |s.produced|;
    hide Inv, Apply, Run, ReadBytes;
    ReadBegins(s);
    var k := s.head - s.tail;
    var s1 := Apply(Apply(s, BeginRead), ReadOwnTail);
    ReadsAll(s1, k);
    RunAround(s, BeginRead, ReadOwnTail, ReadBytes(k), PublishTail(count));
    ReadEnds(s, Run(s1, ReadBytes(k)), count);
  }
}
