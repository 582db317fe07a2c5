/** Finding packet stream boundaries in an Intel PT trace: a search by eight-byte chunks and one byte by byte. */
module PsbSync {
  import opened Wrappers

  type Byte = bv8
  type Buffer = seq<Byte>

  const HI: Byte := 0x02
  const LO: Byte := 0x82
  const PACKET: nat := 16

  predicate Pair(s: Buffer, i: nat) {
    i + 1 < |s| && s[i] == HI && s[i + 1] == LO
  }

  function Other(b: Byte): Byte {
    if b == HI then LO else HI
  }

  /** Eight bytes from `i` on alternate between the two bytes of the pattern. */
  predicate Alternates(s: Buffer, i: nat) {
    && i + 8 <= |s| && (s[i] == HI || s[i] == LO)
    && forall j :: i <= j < i + 8 ==> s[j] == if (j - i) % 2 == 0 then s[i] else Other(s[i])
  }

  /** Eight pairs from `p` on. */
  predicate Pattern(s: Buffer, p: nat) {
    p + PACKET <= |s| && forall j :: p <= j < p + PACKET ==> s[j] == if (j - p) % 2 == 0 then HI else LO
  }

  /** A boundary packet: exactly eight pairs. */
  predicate Packet(s: Buffer, p: nat) {
    Pattern(s, p) && !Pair(s, p + PACKET) && !(p >= 2 && Pair(s, p - 2))
  }

  /** A packet is the bytes 02 82 eight times, with no such pair right before or after. */
  lemma {:induction false} PacketBytes(s: Buffer, p: nat)
    ensures Packet(s, p) <==>
              && p + 16 <= |s| && (forall j :: 0 <= j < 16 ==> s[p + j] == if j % 2 == 0 then 0x02 else 0x82)
              && !(p + 17 < |s| && s[p + 16] == 0x02 && s[p + 17] == 0x82)
              && !(p >= 2 && s[p - 2] == 0x02 && s[p - 1] == 0x82)
  {
    if p + 16 <= |s| {
      assert (forall j :: 0 <= j < 16 ==> s[p + j] == if j % 2 == 0 then 0x02 else 0x82) <==> Pattern(s, p) by {
        if forall j :: 0 <= j < 16 ==> s[p + j] == if j % 2 == 0 then 0x02 else 0x82 {
          forall i | p <= i < p + 16 ensures s[i] == if (i - p) % 2 == 0 then HI else LO {
            assert s[p + (i - p)] == s[i];
          }
        }
      }
    }
  }

  /** The buffer starts one byte into a packet. */
  predicate Cut(s: Buffer) {
    |s| >= 15 && (forall j :: 0 <= j < 15 ==> s[j] == if j % 2 == 0 then LO else HI) && !Pair(s, 15)
  }

  /** Every eight bytes of the alternating pattern belong to a packet. */
  ghost predicate Clean(s: Buffer) {
    forall i :: 0 <= i && Alternates(s, i) ==> exists p :: Packet(s, p) && p <= i <= p + 8
  }

  ghost predicate Tidy(s: Buffer) {
    forall i :: 0 <= i && Alternates(s, i) ==> (Cut(s) && i <= 7) || exists p :: Packet(s, p) && p <= i <= p + 8
  }

  /** The number of the first pair from number `count` on that does not match, counted from `start`; a last
      single byte does not match. */
  function FirstMismatch(s: Buffer, start: nat, count: nat): Option<nat>
    decreases |s| - (start + 2 * count)
  {
    if start + 2 * count >= |s| then None
    else if !Pair(s, start + 2 * count) then Some(count)
    else FirstMismatch(s, start, count + 1)
  }

  /** The packet that chunk `k` is part of, if it is part of one. */
  function TryChunk(s: Buffer, k: nat): Option<nat>
    requires 8 * k + 8 <= |s|
  {
    if !Alternates(s, 8 * k) then None
    else
      var start := if s[8 * k] != HI then 8 * k + 1 else 8 * k;
      match FirstMismatch(s, start, 3)
      case None => None
      case Some(count) =>
        var end := count * 2 + start;
        if end >= PACKET then Some(end - PACKET) else None
  }

  function FindFromChunk(s: Buffer, k: nat): Option<nat>
    decreases |s| - 8 * k
  {
    if 8 * k + 8 > |s| then None
    else
      match TryChunk(s, k)
      case Some(p) => Some(p)
      case None => FindFromChunk(s, k + 1)
  }

  /** The chunk search. */
  function FindNextSync(s: Buffer): Option<nat> {
    FindFromChunk(s, 0)
  }

  /** `r` is the first packet that does not end the buffer. */
  ghost predicate IsFirst(s: Buffer, r: Option<nat>) {
    match r
    case Some(p) => Packet(s, p) && p + PACKET < |s| && forall q: nat :: q < p ==> !Packet(s, q)
    case None => forall q: nat :: Packet(s, q) ==> q + PACKET == |s|
  }

  lemma {:induction false} PatternPairs(s: Buffer, p: nat, i: nat)
    requires Pattern(s, p) && p <= i < p + PACKET && (i - p) % 2 == 0
    ensures Pair(s, i)
  {
    assert s[i + 1] == LO;
  }

  lemma {:induction false} PacketsFit(s: Buffer)
    ensures forall p: nat :: Packet(s, p) ==> p + PACKET <= |s|
  {}

  /** Packets do not overlap. */
  lemma {:induction false} PacketsApart(s: Buffer, p: nat, q: nat)
    requires Packet(s, p) && Packet(s, q) && p < q
    ensures p + PACKET <= q
  {
    if q < p + PACKET {
      assert s[q] == HI;
      PatternPairs(s, p, q - 2);
    }
  }

  lemma {:induction false} PatternAlternates(s: Buffer, p: nat, i: nat)
    requires Pattern(s, p) && p <= i <= p + 8
    ensures Alternates(s, i)
  {}

  lemma {:induction false} MismatchAtEnd(s: Buffer, p: nat, start: nat, count: nat)
    requires Packet(s, p) && p <= start && (start - p) % 2 == 0 && start + 2 * count <= p + PACKET
    ensures FirstMismatch(s, start, count) == if p + PACKET < |s| then Some((p + PACKET - start) / 2) else None
    decreases p + PACKET - (start + 2 * count)
  {
    if start + 2 * count < p + PACKET {
      PatternPairs(s, p, start + 2 * count);
      MismatchAtEnd(s, p, start, count + 1);
    }
  }

  /** A chunk inside a packet finds that packet, unless it ends the buffer. */
  lemma {:induction false} ChunkFinds(s: Buffer, p: nat, k: nat)
    requires Packet(s, p) && p <= 8 * k <= p + 8
    ensures p + PACKET <= |s| && TryChunk(s, k) == if p + PACKET < |s| then Some(p) else None
  {
    PatternAlternates(s, p, 8 * k);
    var start := if s[8 * k] != HI then 8 * k + 1 else 8 * k;
    MismatchAtEnd(s, p, start, 3);
  }

  lemma {:induction false} MismatchInCut(s: Buffer, count: nat)
    requires Cut(s) && count <= 7
    ensures FirstMismatch(s, 1, count) == if |s| > 15 then Some(7) else None
    decreases 7 - count
  {
    if count < 7 {
      assert s[1 + 2 * count] == HI && s[2 + 2 * count] == LO;
      MismatchInCut(s, count + 1);
    }
  }

  lemma {:induction false} CutPacket(s: Buffer, p: nat)
    requires Cut(s) && Packet(s, p)
    ensures p > 15
  {
    var first, second := s[p], s[p + 14];
    assert first == HI && second == HI;
  }

  /** The rest of a packet at the start of the buffer is too short to be found again. */
  lemma {:induction false} CutNotFound(s: Buffer)
    requires Cut(s)
    ensures TryChunk(s, 0) == None
    ensures forall p: nat :: Packet(s, p) ==> p > 15
  {
    MismatchInCut(s, 3);
    forall p: nat | Packet(s, p)
      ensures p > 15
    {
      CutPacket(s, p);
    }
  }

  /** The search from chunk `k` on finds the first packet if all packets are from there on. */
  lemma {:induction false} ChunkSearchFirst(s: Buffer, k: nat)
    requires Tidy(s) && forall p: nat :: Packet(s, p) && p + PACKET < |s| ==> p + 7 >= 8 * k
    ensures IsFirst(s, FindFromChunk(s, k))
    decreases |s| - 8 * k
  {
    hide Pattern, Pair, Alternates, Cut, FirstMismatch;
    PacketsFit(s);
    if 8 * k + 8 <= |s| {
      if Alternates(s, 8 * k) {
        if Cut(s) && 8 * k <= 7 {
          CutNotFound(s);
          ChunkSearchFirst(s, k + 1);
        } else {
          var p: nat :| Packet(s, p) && p <= 8 * k <= p + 8;
          ChunkFinds(s, p, k);
          forall q: nat | Packet(s, q) && q != p
            ensures if q < p then q + 7 < 8 * k else q >= p + PACKET
          {
            if q < p {
              PacketsApart(s, q, p);
            } else {
              PacketsApart(s, p, q);
            }
          }
          if p + PACKET == |s| {
            ChunkSearchFirst(s, k + 1);
          }
        }
      } else {
        forall p: nat | Packet(s, p) && p + PACKET < |s|
          ensures p + 7 >= 8 * (k + 1)
        {
          if p <= 8 * k {
            PatternAlternates(s, p, 8 * k);
          }
        }
        ChunkSearchFirst(s, k + 1);
      }
    }
  }

  lemma {:induction false} SamePhase(s: Buffer, p: nat, i: nat)
    requires Pattern(s, p) && Pattern(s, i) && p <= i < p + PACKET
    ensures (i - p) % 2 == 0
  {
    assert s[i] == HI;
  }

  /** In a clean buffer eight pairs are exactly a packet. */
  lemma {:induction false} CleanPattern(s: Buffer, i: nat)
    requires Clean(s) && Pattern(s, i)
    ensures Packet(s, i)
  {
    hide Pattern, Alternates, Pair;
    PatternAlternates(s, i, i);
    var p: nat :| Packet(s, p) && p <= i <= p + 8;
    if p < i {
      SamePhase(s, p, i);
      PatternPairs(s, i, p + PACKET);
    }
  }

  /** `r` is the first eight pairs that do not end the buffer. */
  ghost predicate FirstPattern(s: Buffer, r: Option<nat>) {
    match r
    case Some(p) => Pattern(s, p) && p + PACKET < |s| && forall q: nat :: q < p ==> !Pattern(s, q)
    case None => forall q: nat :: Pattern(s, q) ==> q + PACKET == |s|
  }

  /** The buffer ends in nine pairs. */
  predicate EndsInNinePairs(s: Buffer) {
    |s| >= 18 && Pattern(s, |s| - 18) && Pair(s, |s| - 2)
  }

  /** Pairs all the way from `a` to `b`. */
  ghost predicate Pairs(s: Buffer, a: nat, b: nat) {
    a <= b && (b - a) % 2 == 0 && forall i :: a <= i < b && (i - a) % 2 == 0 ==> Pair(s, i)
  }

  /** Where the pairs of chunk `k` start. */
  function PairStart(s: Buffer, k: nat): nat
    requires 8 * k + 8 <= |s|
  {
    if s[8 * k] != HI then 8 * k + 1 else 8 * k
  }

  /** A run of pairs that is part of no longer one. */
  ghost predicate MaximalRun(s: Buffer, a: nat, b: nat) {
    a < b && Pairs(s, a, b) && !Pair(s, b) && !(a >= 2 && Pair(s, a - 2))
  }

  /** The aligned chunk `k` alternates, and its pairs are part of the run from `a` to `b`. */
  ghost predicate Hits(s: Buffer, k: nat, a: nat, b: nat) {
    && MaximalRun(s, a, b) && 8 * k + 8 <= |s| && Alternates(s, 8 * k)
    && a <= PairStart(s, k) < b && (PairStart(s, k) - a) % 2 == 0
  }

  /** Chunk `k` hits a run that ends before the buffer does, though not before a packet could. */
  ghost predicate Stops(s: Buffer, k: nat, a: nat, b: nat) {
    Hits(s, k, a, b) && PACKET <= b < |s|
  }

  /** No earlier chunk hits such a run. */
  ghost predicate StopsFirst(s: Buffer, k: nat, a: nat, b: nat) {
    Stops(s, k, a, b) && forall m: nat, c: nat, d: nat :: Stops(s, m, c, d) ==> k <= m
  }

  /** When the two searches agree: the first such run that an aligned chunk hits has exactly eight pairs; or
      there is none, and no run of nine or more pairs ends the buffer. */
  ghost predicate SearchesAgree(s: Buffer) {
    && (forall k: nat, a: nat, b: nat :: StopsFirst(s, k, a, b) ==> b - a == PACKET)
    && ((forall k: nat, a: nat, b: nat :: !Stops(s, k, a, b)) ==>
         !exists a: nat :: MaximalRun(s, a, |s|) && |s| - a > PACKET)
  }

  /** The byte-by-byte search. */
  method FindNextSyncSimple(s: Buffer) returns (r: Option<nat>)
    requires |s| >= PACKET
    ensures FirstPattern(s, r)
    ensures r == FindNextSync(s) <==> SearchesAgree(s)
    ensures Clean(s) ==> r == FindNextSync(s)
  {
    r := None;
    var i := 0;
    while i < |s| - PACKET && r == None
      invariant i <= |s| - PACKET && (r.Some? ==> r.value == i - 1 && Pattern(s, i - 1))
      invariant forall q: nat :: q < (if r.Some? then i - 1 else i) ==> !Pattern(s, q)
      decreases |s| - i
    {
      if s[i] == HI && Pattern(s, i) {
        r := Some(i);
      }
      i := i + 1;
    }
    AgreesExactly(s, r);
    if Clean(s) {
      CleanAgrees(s);
    }
  }

  /** The pairs counted by the chunk search. */
  lemma {:induction false} MismatchPairs(s: Buffer, start: nat, count: nat)
    requires start + 2 * count <= |s| && Pairs(s, start, start + 2 * count)
    ensures match FirstMismatch(s, start, count)
            case Some(c) => start + 2 * c < |s| && !Pair(s, start + 2 * c) && Pairs(s, start, start + 2 * c)
            case None => Pairs(s, start, |s|)
    decreases |s| - (start + 2 * count)
  {
    if start + 2 * count < |s| && Pair(s, start + 2 * count) {
      MismatchPairs(s, start, count + 1);
    }
  }

  /** What chunk `k` finds, and what it misses, in terms of the run of pairs it is part of. */
  lemma {:induction false} ChunkRun(s: Buffer, k: nat)
    requires 8 * k + 8 <= |s| && Alternates(s, 8 * k)
    ensures var start := PairStart(s, k);
            && s[start] == HI
            && match TryChunk(s, k)
               case Some(p) => p + PACKET < |s| && !Pair(s, p + PACKET) && Pairs(s, start, p + PACKET)
               case None =>
                 Pairs(s, start, |s|) || exists e: nat :: start <= e < PACKET && (e - start) % 2 == 0 && !Pair(s, e)
  {
    var start := PairStart(s, k);
    assert Pair(s, start) && Pair(s, start + 2) && Pair(s, start + 4);
    assert Pairs(s, start, start + 6);
    MismatchPairs(s, start, 3);
    var c := FirstMismatch(s, start, 3);
    if c.Some? && start + 2 * c.value < PACKET {
      assert !Pair(s, start + 2 * c.value);
    }
  }

  lemma {:induction false} PatternIsPairs(s: Buffer, p: nat)
    requires Pattern(s, p)
    ensures Pairs(s, p, p + PACKET)
  {
    forall i | p <= i < p + PACKET && (i - p) % 2 == 0
      ensures Pair(s, i)
    {
      PatternPairs(s, p, i);
    }
  }

  lemma {:induction false} PairBytes(s: Buffer, a: nat, b: nat, i: nat)
    requires Pairs(s, a, b) && a <= i < b
    ensures i < |s| && s[i] == if (i - a) % 2 == 0 then HI else LO
  {
    assert Pair(s, if (i - a) % 2 == 0 then i else i - 1);
  }

  lemma {:induction false} PairsPattern(s: Buffer, a: nat, b: nat, p: nat)
    requires Pairs(s, a, b) && a <= p && p + PACKET <= b && (p - a) % 2 == 0
    ensures Pattern(s, p)
  {
    forall j | p <= j < p + PACKET
      ensures j < |s| && s[j] == if (j - p) % 2 == 0 then HI else LO
    {
      PairBytes(s, a, b, j);
    }
    PairBytes(s, a, b, p + PACKET - 1);
  }

  lemma {:induction false} PairsJoin(s: Buffer, a: nat, b: nat, c: nat, d: nat)
    requires Pairs(s, a, b) && Pairs(s, c, d) && a <= c <= b <= d && (c - a) % 2 == 0
    ensures Pairs(s, a, d)
  {
    forall i | a <= i < d && (i - a) % 2 == 0
      ensures Pair(s, i)
    {
      if i >= c {
        assert (i - c) % 2 == 0;
      }
    }
  }

  /** In a run of pairs the first byte of the pattern is only at the start of a pair. */
  lemma {:induction false} InPhase(s: Buffer, a: nat, b: nat, i: nat)
    requires Pairs(s, a, b) && a <= i < b && i < |s| && s[i] == HI
    ensures (i - a) % 2 == 0
  {
    PairBytes(s, a, b, i);
  }

  /** The aligned chunk inside eight pairs either finds a packet's end or runs to the end of the buffer. */
  lemma {:induction false} PatternChunk(s: Buffer, q: nat) returns (k: nat)
    requires Pattern(s, q)
    ensures q <= 8 * k <= q + 7 && 8 * k + 8 <= |s|
    ensures TryChunk(s, k) == None ==> Pairs(s, q, |s|)
  {
    k := (q + 7) / 8;
    PatternAlternates(s, q, 8 * k);
    PatternIsPairs(s, q);
    hide Pattern, Alternates, TryChunk;
    ChunkRun(s, k);
    PairsRunOn(s, q, PairStart(s, k), TryChunk(s, k) == None);
  }

  lemma {:induction false} PairsRunOn(s: Buffer, q: nat, start: nat, missed: bool)
    requires Pairs(s, q, q + PACKET) && q <= start <= q + 8 && start < |s| && s[start] == HI
    requires missed ==>
               Pairs(s, start, |s|) || exists e: nat :: start <= e < PACKET && (e - start) % 2 == 0 && !Pair(s, e)
    ensures missed ==> Pairs(s, q, |s|)
  {
    InPhase(s, q, q + PACKET, start);
    PairBytes(s, q, q + PACKET, q + PACKET - 1);
    assert forall e: nat :: start <= e < PACKET && (e - start) % 2 == 0 ==> Pair(s, e);
    if missed {
      PairsJoin(s, q, q + PACKET, start, |s|);
    }
  }

  /** A chunk in a run that goes on to the end of the buffer finds nothing. */
  lemma {:induction false} RunToEnd(s: Buffer, q: nat, k: nat)
    requires Pairs(s, q, |s|) && q <= 8 * k && 8 * k + 8 <= |s|
    ensures TryChunk(s, k) == None
  {
    NoChunk(s, k);
    hide TryChunk, Alternates, Pair;
    if Alternates(s, 8 * k) {
      ChunkRun(s, k);
      InPhase(s, q, |s|, PairStart(s, k));
    }
  }

  lemma {:induction false} NoChunk(s: Buffer, k: nat)
    requires 8 * k + 8 <= |s|
    ensures !Alternates(s, 8 * k) ==> TryChunk(s, k) == None
  {}

  /** The chunk the search stops at is the first that finds anything. */
  lemma {:induction false} StopsAt(s: Buffer, from: nat) returns (k: nat)
    ensures FindFromChunk(s, from).Some? ==> from <= k && 8 * k + 8 <= |s| && TryChunk(s, k) == FindFromChunk(s, from)
    ensures forall m :: from <= m && 8 * m + 8 <= |s| && (FindFromChunk(s, from).Some? ==> m < k) ==>
              TryChunk(s, m) == None
    decreases |s| - 8 * from
  {
    k := from;
    if 8 * from + 8 <= |s| && TryChunk(s, from) == None {
      k := StopsAt(s, from + 1);
    }
  }

  /** If the search stops at a packet, no eight pairs come before it. */
  lemma {:induction false} NothingBefore(s: Buffer, p: nat, k: nat, q: nat)
    requires 8 * k + 8 <= |s| && TryChunk(s, k) == Some(p) && Packet(s, p)
    requires forall m :: 0 <= m < k ==> TryChunk(s, m) == None
    requires Pattern(s, q)
    ensures q >= p
  {
    ChunkFound(s, k, p);
    hide Pattern, Alternates, TryChunk, Pairs;
    var m := PatternChunk(s, q);
    if m < k {
      RunToEnd(s, q, k);
    } else if q < p {
      SamePairs(s, p, q, PairStart(s, k));
    }
  }

  lemma {:induction false} ChunkFound(s: Buffer, k: nat, p: nat)
    requires 8 * k + 8 <= |s| && TryChunk(s, k) == Some(p)
    ensures s[PairStart(s, k)] == HI && p + PACKET < |s| && !Pair(s, p + PACKET)
              && Pairs(s, PairStart(s, k), p + PACKET)
  {
    ChunkRun(s, k);
  }

  lemma {:induction false} SamePairs(s: Buffer, p: nat, q: nat, start: nat)
    requires Pattern(s, q) && q < p && start <= q + 8 && start < |s| && s[start] == HI && Pairs(s, start, p + PACKET)
    ensures p >= 2 && Pair(s, p - 2)
  {
    PatternIsPairs(s, q);
    assert s[q] == HI;
    hide Pattern;
    if start >= q {
      InPhase(s, q, q + PACKET, start);
    } else {
      InPhase(s, start, p + PACKET, q);
    }
  }

  /** The maximal run that ends where the pairs from `c` to `b` end. */
  lemma {:induction false} RunBack(s: Buffer, c: nat, b: nat) returns (a: nat)
    requires c < b && Pairs(s, c, b) && !Pair(s, b)
    ensures a <= c && (c - a) % 2 == 0 && MaximalRun(s, a, b)
    decreases c
  {
    a := c;
    if c >= 2 && Pair(s, c - 2) {
      forall i | c - 2 <= i < b && (i - (c - 2)) % 2 == 0
        ensures Pair(s, i)
      {
        assert i == c - 2 || (i - c) % 2 == 0;
      }
      a := RunBack(s, c - 2, b);
    }
  }

  /** Two maximal runs through one pair are the same. */
  lemma {:induction false} SameRun(s: Buffer, a: nat, b: nat, c: nat, d: nat, i: nat)
    requires MaximalRun(s, a, b) && MaximalRun(s, c, d)
    requires a <= i < b && c <= i < d && (i - a) % 2 == 0 && (i - c) % 2 == 0
    ensures a == c && b == d
  {
    hide Pair, Pairs;
    RunIsEven(s, a, b);
    RunIsEven(s, c, d);
    if a < c {
      PairIn(s, a, b, c - 2);
    } else if c < a {
      PairIn(s, c, d, a - 2);
    }
    if b < d {
      PairIn(s, c, d, b);
    } else if d < b {
      PairIn(s, a, b, d);
    }
  }

  lemma {:induction false} PairIn(s: Buffer, a: nat, b: nat, i: nat)
    requires Pairs(s, a, b) && a <= i < b && (i - a) % 2 == 0
    ensures Pair(s, i)
  {}

  /** A chunk finds something exactly if it stops at a run, and then it finds the last eight pairs of it. */
  lemma {:induction false} ChunkStops(s: Buffer, k: nat, a: nat, b: nat)
    requires 8 * k + 8 <= |s| && Stops(s, k, a, b)
    ensures TryChunk(s, k) == Some(b - PACKET)
  {
    hide TryChunk, Alternates, Pair;
    var start := PairStart(s, k);
    RunEnds(s, a, b, start);
    ChunkRun(s, k);
    if TryChunk(s, k).Some? {
      var p := TryChunk(s, k).value;
      var c := RunBack(s, start, p + PACKET);
      SameRun(s, a, b, c, p + PACKET, start);
    }
  }

  lemma {:induction false} RunEnds(s: Buffer, a: nat, b: nat, start: nat)
    requires MaximalRun(s, a, b) && a <= start < b && (start - a) % 2 == 0
    ensures b < |s| ==> !Pairs(s, start, |s|)
    ensures forall e: nat :: start <= e < b && (e - start) % 2 == 0 ==> Pair(s, e)
  {
    hide Pair;
    if b < |s| {
      assert Pairs(s, start, |s|) ==> Pair(s, b) by {
        assert (b - start) % 2 == 0;
      }
    }
    forall e: nat | start <= e < b && (e - start) % 2 == 0 ensures Pair(s, e) {
      assert (e - a) % 2 == 0;
    }
  }

  lemma {:induction false} StopsChunk(s: Buffer, k: nat) returns (a: nat)
    requires 8 * k + 8 <= |s| && TryChunk(s, k).Some?
    ensures Stops(s, k, a, TryChunk(s, k).value + PACKET)
  {
    var p := TryChunk(s, k).value;
    ChunkFound(s, k, p);
    assert Alternates(s, 8 * k);
    hide TryChunk, Alternates, Pair;
    a := RunBack(s, PairStart(s, k), p + PACKET);
  }

  /** The condition on runs is the one on what the chunk search finds. */
  lemma {:induction false} AgreeOnRuns(s: Buffer)
    ensures SearchesAgree(s) <==>
            match FindNextSync(s)
            case Some(p) => Packet(s, p)
            case None => !EndsInNinePairs(s)
  {
    hide TryChunk, Pattern, Pair, MaximalRun, Hits, EndsInNinePairs;
    var k := StopsAt(s, 0);
    forall m: nat, c: nat, d: nat | Stops(s, m, c, d)
      ensures 8 * m + 8 <= |s| && TryChunk(s, m) == Some(d - PACKET)
    {
      StopsInside(s, m, c, d);
      ChunkStops(s, m, c, d);
    }
    match FindNextSync(s)
    case Some(p) =>
      var a := StopsChunk(s, k);
      StopsInside(s, k, a, p + PACKET);
      PacketRun(s, a, p);
      forall m: nat, c: nat, d: nat | StopsFirst(s, m, c, d)
        ensures c == a && d == p + PACKET
      {
        assert m == k;
        OneRun(s, k, a, p + PACKET, c, d);
      }
      assert StopsFirst(s, k, a, p + PACKET);
    case None =>
      EndsInRun(s);
  }

  lemma {:induction false} StopsInside(s: Buffer, k: nat, a: nat, b: nat)
    requires Stops(s, k, a, b)
    ensures 8 * k + 8 <= |s| && MaximalRun(s, a, b)
  {}

  lemma {:induction false} OneRun(s: Buffer, k: nat, a: nat, b: nat, c: nat, d: nat)
    requires Stops(s, k, a, b) && Stops(s, k, c, d)
    ensures a == c && b == d
  {
    SameRun(s, a, b, c, d, PairStart(s, k));
  }

  lemma {:induction false} RunIsEven(s: Buffer, a: nat, b: nat)
    requires Pairs(s, a, b)
    ensures (b - a) % 2 == 0
  {}

  /** What ends where a run ends is a packet exactly if it is the whole run. */
  lemma {:induction false} PacketRun(s: Buffer, a: nat, p: nat)
    requires MaximalRun(s, a, p + PACKET)
    ensures Packet(s, p) <==> a == p
  {
    hide Pattern, Pair, Pairs;
    RunIsEven(s, a, p + PACKET);
    assert (p - a) % 2 == 0;
    if a == p {
      PairsPattern(s, a, p + PACKET, p);
    } else if a < p {
      PairIn(s, a, p + PACKET, p - 2);
    } else if Pattern(s, p) {
      PairBefore(s, p, a);
    }
  }

  lemma {:induction false} PairBefore(s: Buffer, p: nat, a: nat)
    requires Pattern(s, p) && p < a <= p + PACKET && (a - p) % 2 == 0
    ensures a >= 2 && Pair(s, a - 2)
  {
    PatternPairs(s, p, a - 2);
  }

  lemma {:induction false} EndsInRun(s: Buffer)
    ensures EndsInNinePairs(s) <==> exists a: nat :: MaximalRun(s, a, |s|) && |s| - a > PACKET
  {
    hide Pattern, Pair;
    if EndsInNinePairs(s) {
      PatternIsPairs(s, |s| - 18);
      NinePairs(s);
      var a := RunBack(s, |s| - 18, |s|);
    }
    if a: nat :| MaximalRun(s, a, |s|) && |s| - a > PACKET {
      PairsPattern(s, a, |s|, |s| - 18);
    }
  }

  lemma {:induction false} NinePairs(s: Buffer)
    requires |s| >= 18 && Pairs(s, |s| - 18, |s| - 2) && Pair(s, |s| - 2)
    ensures Pairs(s, |s| - 18, |s|) && !Pair(s, |s|)
  {}

  /** For every buffer, the byte-by-byte search agrees with the chunk search exactly under the condition. */
  lemma {:induction false} AgreesExactly(s: Buffer, r: Option<nat>)
    requires FirstPattern(s, r)
    ensures r == FindNextSync(s) <==> SearchesAgree(s)
  {
    hide Pattern, Pair, TryChunk, Alternates, SearchesAgree;
    AgreeOnRuns(s);
    var k := StopsAt(s, 0);
    match FindNextSync(s)
    case Some(p) => FoundExactly(s, r, p, k);
    case None => MissedExactly(s, r);
  }

  lemma {:induction false} PatternBefore(s: Buffer, p: nat)
    requires Pattern(s, p) && p >= 2 && Pair(s, p - 2)
    ensures Pattern(s, p - 2)
  {}

  lemma {:induction false} FoundExactly(s: Buffer, r: Option<nat>, p: nat, k: nat)
    requires FirstPattern(s, r) && 8 * k + 8 <= |s| && TryChunk(s, k) == Some(p)
    requires forall m :: 0 <= m < k ==> TryChunk(s, m) == None
    ensures r == Some(p) <==> Packet(s, p)
  {
    ChunkFound(s, k, p);
    hide TryChunk, Pairs, Pattern, Pair;
    if Packet(s, p) {
      forall q: nat | Pattern(s, q)
        ensures q >= p
      {
        NothingBefore(s, p, k, q);
      }
    }
    if r == Some(p) && p >= 2 && Pair(s, p - 2) {
      PatternBefore(s, p);
    }
  }

  lemma {:induction false} MissedExactly(s: Buffer, r: Option<nat>)
    requires FirstPattern(s, r) && forall m :: 0 <= m && 8 * m + 8 <= |s| ==> TryChunk(s, m) == None
    ensures r == None <==> !EndsInNinePairs(s)
  {
    hide TryChunk;
    if r.Some? {
      var m := PatternChunk(s, r.value);
      PairsPattern(s, r.value, |s|, |s| - 18);
      assert Pair(s, |s| - 2);
    }
  }

  /** In every clean buffer the searches agree. */
  lemma {:induction false} CleanAgrees(s: Buffer)
    requires Clean(s)
    ensures SearchesAgree(s)
  {
    hide Pattern, Pair, SearchesAgree;
    AgreeOnRuns(s);
    ChunkSearchFirst(s, 0);
    if EndsInNinePairs(s) {
      CleanPattern(s, |s| - 18);
    }
  }

  /** `n` pairs and a byte that is not part of one. */
  function LongRun(n: nat): Buffer {
    seq(2 * n, i => if i % 2 == 0 then HI else LO) + [0]
  }

  /** Beyond eight pairs the chunk search finds the last eight of them, the other search the first. */
  lemma {:induction false} LongRunDiffers(n: nat)
    requires n > 8
    ensures FindNextSync(LongRun(n)) == Some(2 * n - PACKET) && FirstPattern(LongRun(n), Some(0))
  {
    var s := LongRun(n);
    assert MaximalRun(s, 0, 2 * n);
    assert Stops(s, 0, 0, 2 * n);
    ChunkStops(s, 0, 0, 2 * n);
  }

  /** All packets from `from` on that do not end the buffer, in order. */
  ghost function SyncPoints(s: Buffer, from: nat): seq<nat>
    decreases |s| - from
  {
    if from + PACKET >= |s| then []
    else if Packet(s, from) then [from] + SyncPoints(s, from + 1)
    else SyncPoints(s, from + 1)
  }

  /** Where a clean buffer can be cut for the next search. */
  ghost predicate CutPoint(s: Buffer, from: nat) {
    from <= |s| && (from == 0 || Packet(s, from - 1))
  }

  /** The packet before the cut is the last that is not seen any more. */
  lemma {:induction false} AfterPacket(s: Buffer, p: nat)
    requires Clean(s) && Packet(s, p)
    ensures p + PACKET < |s| ==> s[p + PACKET] != HI
  {
    if p + PACKET < |s| && s[p + PACKET] == HI {
      assert Alternates(s, p + 9);
      var q: nat :| Packet(s, q) && q <= p + 9 <= q + 8;
      PacketsApart(s, p, q);
    }
  }

  lemma {:induction false} SuffixCut(s: Buffer, p: nat)
    requires Clean(s) && Packet(s, p)
    ensures Cut(s[p + 1..])
  {
    AfterPacket(s, p);
    var t := s[p + 1..];
    forall j | 0 <= j < 15
      ensures t[j] == if j % 2 == 0 then LO else HI
    {
      assert t[j] == s[p + 1 + j];
    }
  }

  /** A packet of a suffix is a packet of the buffer, and the other way round. */
  lemma {:induction false} SuffixPacket(s: Buffer, from: nat, q: nat)
    requires Clean(s) && CutPoint(s, from)
    ensures Packet(s[from..], q) <==> Packet(s, from + q)
  {
    var t := s[from..];
    assert forall j :: 0 <= j < |t| ==> t[j] == s[from + j];
    if Packet(t, q) {
      assert Pattern(s, from + q);
      CleanPattern(s, from + q);
    }
    if Packet(s, from + q) {
      assert Pattern(t, q);
    }
  }

  /** What is left after a packet is tidy. */
  lemma {:induction false} SuffixTidy(s: Buffer, from: nat)
    requires Clean(s) && CutPoint(s, from)
    ensures Tidy(s[from..])
  {
    var t := s[from..];
    if from == 0 {
      assert t == s;
    } else {
      SuffixCut(s, from - 1);
      hide Alternates, Packet, Cut;
      forall i: nat | Alternates(t, i) && i > 7
        ensures exists p: nat :: Packet(t, p) && p <= i <= p + 8
      {
        AlternatesIn(s, from, i);
        var q: nat :| Packet(s, q) && q <= from + i <= q + 8;
        SuffixPacket(s, from, q - from);
        assert Packet(t, q - from);
      }
    }
  }

  lemma {:induction false} AlternatesIn(s: Buffer, from: nat, i: nat)
    requires from <= |s| && Alternates(s[from..], i)
    ensures Alternates(s, from + i)
  {
    var t := s[from..];
    forall j | from + i <= j < from + i + 8
      ensures s[j] == if (j - (from + i)) % 2 == 0 then s[from + i] else Other(s[from + i])
    {
      assert t[j - from] == s[j];
    }
  }

  lemma {:induction false} SkipTo(s: Buffer, from: nat, p: nat)
    requires from <= p && Packet(s, p) && p + PACKET < |s| && forall q: nat :: from <= q < p ==> !Packet(s, q)
    ensures SyncPoints(s, from) == [p] + SyncPoints(s, p + 1)
    decreases p - from
  {
    if from < p {
      SkipTo(s, from + 1, p);
    }
  }

  lemma {:induction false} NoneLeft(s: Buffer, from: nat)
    requires forall q: nat :: from <= q && Packet(s, q) ==> q + PACKET >= |s|
    ensures SyncPoints(s, from) == []
    decreases |s| - from
  {
    if from + PACKET < |s| {
      NoneLeft(s, from + 1);
    }
  }

  /** Searching again one byte into a packet finds the next packet, never the same one. */
  lemma {:induction false} SearchAfter(s: Buffer, from: nat)
    requires Clean(s) && CutPoint(s, from)
    ensures match FindNextSync(s[from..])
            case None => SyncPoints(s, from) == []
            case Some(p) =>
              && SyncPoints(s, from) == [from + p] + SyncPoints(s, from + p + 1)
              && CutPoint(s, from + p + 1) && from + p + PACKET < |s|
  {
    hide Packet, Tidy, FindNextSync;
    var t := s[from..];
    SuffixTidy(s, from);
    FastFirst(t);
    forall q: nat
      ensures Packet(t, q) <==> Packet(s, from + q)
    {
      SuffixPacket(s, from, q);
    }
    match FindNextSync(t)
    case None =>
      forall q: nat | from <= q && Packet(s, q)
        ensures q + PACKET >= |s|
      {
        assert Packet(t, q - from);
      }
      NoneLeft(s, from);
    case Some(p) =>
      forall q: nat | from <= q < from + p
        ensures !Packet(s, q)
      {
        assert !Packet(t, q - from);
      }
      SkipTo(s, from, from + p);
  }

  /** The chunk search finds the first packet. */
  lemma {:induction false} FastFirst(s: Buffer)
    requires Tidy(s)
    ensures IsFirst(s, FindNextSync(s))
  {
    ChunkSearchFirst(s, 0);
  }

  datatype SyncRange = Range(start: nat, end: nat) | NoSync | OneSync(at: nat)

  /** The range from the first of `points` to the last one wanted; `max` 0 wants all. */
  ghost function RangeOf(points: seq<nat>, max: nat): SyncRange {
    var count := if max == 0 || |points| < max then |points| else max;
    if count == 0 then NoSync else if count == 1 then OneSync(points[0]) else Range(points[0], points[count - 1])
  }

  /** What the chunk search finds from `from` on, going on one byte into each packet found. */
  ghost function Found(s: Buffer, from: nat): seq<nat>
    decreases |s| - from
  {
    if from >= |s| then []
    else
      match FindNextSync(s[from..])
      case None => []
      case Some(p) => [from + p] + Found(s, from + p + 1)
  }

  /** In a clean buffer these are the packets that do not end the buffer. */
  lemma {:induction false} FoundAll(s: Buffer, from: nat)
    requires Clean(s) && CutPoint(s, from)
    ensures Found(s, from) == SyncPoints(s, from)
    decreases |s| - from
  {
    hide Clean, FindNextSync, Packet, CutPoint;
    if from < |s| {
      SearchAfter(s, from);
      match FindNextSync(s[from..])
      case None =>
      case Some(p) => FoundAll(s, from + p + 1);
    }
  }

  /** From the first place found to the last one of at most `max`; in every clean buffer these are the packets. */
  method FindSyncRange(s: Buffer, max: nat) returns (r: SyncRange)
    ensures r == RangeOf(Found(s, 0), max)
    ensures Clean(s) ==> r == RangeOf(SyncPoints(s, 0), max)
  {
    hide Clean, Packet, FindNextSync, SyncPoints;
    if Clean(s) {
      FoundAll(s, 0);
    }
    assert s[0..] == s;
    NothingInEmpty();
    var first := FindNextSync(s);
    if first.None? {
      return NoSync;
    }
    var start := first.value;
    var last, count := start, 1;
    ghost var points := [start];
    while count != max && last + 1 < |s|
      invariant count == |points| >= 1 && points[0] == start && points[count - 1] == last && (max == 0 || count <= max)
      invariant Found(s, 0) == points + Found(s, last + 1)
      decreases |s| - last
    {
      var next := FindNextSync(s[last + 1..]);
      if next.None? {
        break;
      }
      count := count + 1;
      last := last + (next.value + 1);
      points := points + [last];
    }
    r := if count == 1 then OneSync(start) else Range(start, last);
  }

  lemma {:induction false} NothingInEmpty()
    ensures FindNextSync([]) == None
  {}
}
