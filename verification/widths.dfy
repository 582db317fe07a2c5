/** Parts of registers: what operands of a width see and change. */
module Widths {
  import opened Wrappers
  import opened Rudder

  /** How much of a register an operand uses; wider vector registers are used whole. */
  datatype Width = W8 | W16 | W32 | W64

  /** One more than the largest value of width `w`. */
  function Size(w: Width): (n: nat)
    ensures n > 0
  {
    match w
    case W8 => 0x100
    case W16 => 0x1_0000
    case W32 => 0x1_0000_0000
    case W64 => 0x1_0000_0000_0000_0000
  }

  /** The part of a value that an operand of width `w` uses. */
  function Low(w: Width, x: Word): Word {
    x % Size(w)
  }

  /** What writing `x` at width `w` leaves in a register that held `was`: 8- and 16-bit writes keep its upper
      bits, 32-bit ones clear them. */
  function Put(w: Width, x: Word, was: Word): Word {
    if w.W8? || w.W16? then was - Low(w, was) + Low(w, x) else Low(w, x)
  }

  /** The part of the register that a write changes and the part that it keeps or clears. */
  lemma {:induction false} PutParts(x: Word, was: Word)
    ensures Put(W8, x, was) % 0x100 == x % 0x100 && Put(W8, x, was) / 0x100 == was / 0x100
    ensures Put(W16, x, was) % 0x1_0000 == x % 0x1_0000 && Put(W16, x, was) / 0x1_0000 == was / 0x1_0000
    ensures Put(W32, x, was) % 0x1_0000_0000 == x % 0x1_0000_0000 && Put(W32, x, was) / 0x1_0000_0000 == 0
    ensures Put(W64, x, was) == x
  {
    Splice(was, x % 0x100, 0x100);
    Splice(was, x % 0x1_0000, 0x1_0000);
  }

  lemma {:induction false} Splice(was: nat, y: nat, m: nat)
    requires y < m
    ensures (was - was % m + y) % m == y && (was - was % m + y) / m == was / m
  {
    assert was == was / m * m + was % m;
    ModuloIs(was - was % m + y, m, was / m, y);
    QuotientIs(was - was % m + y, m, was / m, y);
  }

  predicate Within(w: Width, n: Width) {
    Size(w) <= Size(n)
  }

  /** Writing at width `w` decides all the bits that width `n` uses. */
  predicate Decides(w: Width, n: Width) {
    w.W32? || Within(n, w)
  }

  /** A move of a register to itself changes nothing whatever it holds, exactly when it is not a 32-bit one. */
  lemma {:induction false} SelfMoveExactly(w: Width)
    ensures (forall x :: Put(w, x, x) == x) <==> !w.W32?
  {
    if w.W32? {
      assert Put(w, 0x1_0000_0000, 0x1_0000_0000) == 0;
    }
  }

  lemma {:induction false} Divides(w: Width, n: Width) returns (c: nat)
    requires Within(w, n)
    ensures Size(n) == c * Size(w)
  {
    c := Size(n) / Size(w);
  }

  lemma {:induction false} Positive(d: int, m: nat)
    requires d * m > 0
    ensures d > 0
  {}

  lemma {:induction false} NextMultiple(t: nat, u: nat, m: nat, c: nat)
    requires t * m + u < c * m
    ensures t * m + m <= c * m
  {
    assert (c - t) * m == c * m - t * m;
    Positive(c - t, m);
    assert (c - t - 1) * m >= 0;
    assert (c - t - 1) * m == c * m - t * m - m;
  }

  lemma {:induction false} Reorder(q: nat, c: nat, m: nat, t: nat)
    ensures (q * c + t) * m == q * (c * m) + t * m
  {
    assert (q * c + t) * m == (q * c) * m + t * m;
    assert (q * c) * m == q * (c * m);
  }

  /** The parts of `a` above a multiple of `m`, between the two, and below `m`. */
  lemma {:induction false} Splits(a: nat, m: nat, c: nat, n: nat) returns (q: nat, t: nat, u: nat)
    requires m > 0 && n > 0 && n == c * m
    ensures a == q * n + (t * m + u) && u < m && t * m + m <= n
    ensures a % n == t * m + u && a % m == u
  {
    q := a / n;
    var r := a % n;
    t, u := r / m, r % m;
    assert a == q * n + r && r == t * m + u;
    NextMultiple(t, u, m, c);
    Reorder(q, c, m, t);
    ModuloIs(a, m, q * c + t, u);
  }

  /** Replacing the part below `m` commutes with dropping the part above a multiple of `m`. */
  lemma {:induction false} Replaces(a: nat, y: nat, m: nat, c: nat, n: nat)
    requires m > 0 && n > 0 && n == c * m && y < m
    ensures (a % n) % m == a % m
    ensures (a - a % m + y) % n == a % n - a % m + y
  {
    var q, t, u := Splits(a, m, c, n);
    ModuloIs(t * m + u, m, t, u);
    ModuloIs(a - u + y, n, q, t * m + y);
  }

  /** Values that agree on a width agree on every narrower one. */
  lemma {:induction false} LowWithin(w: Width, n: Width, x: Word, y: Word)
    requires Within(w, n) && Low(n, x) == Low(n, y)
    ensures Low(w, x) == Low(w, y)
  {
    var c := Divides(w, n);
    hide Size;
    Replaces(x, 0, Size(w), c, Size(n));
    Replaces(y, 0, Size(w), c, Size(n));
  }

  lemma {:induction false} LowOfPut(w: Width, x: Word, was: Word)
    ensures Low(w, Put(w, x, was)) == Low(w, x)
  {
    hide Size;
    Replaces(was, Low(w, x), Size(w), 1, Size(w));
    Replaces(x, 0, Size(w), 1, Size(w));
  }

  /** Writing the same to registers that agree on the bits in use keeps them in agreement. */
  lemma {:induction false} PutSame(w: Width, n: Width, x: Word, a: Word, b: Word)
    requires Low(n, a) == Low(n, b) || Decides(w, n)
    ensures Low(n, Put(w, x, a)) == Low(n, Put(w, x, b))
  {
    if w.W8? || w.W16? {
      if Within(n, w) {
        LowOfPut(w, x, a);
        LowOfPut(w, x, b);
        LowWithin(n, w, Put(w, x, a), Put(w, x, b));
      } else {
        var c := Divides(w, n);
        hide Size;
        Replaces(a, Low(w, x), Size(w), c, Size(n));
        Replaces(b, Low(w, x), Size(w), c, Size(n));
      }
    }
  }

  /** The lowest byte is part of every width. */
  lemma {:induction false} LowestByte(w: Width, x: Word, y: Word)
    requires Low(w, x) == Low(w, y)
    ensures Low(W8, x) == Low(W8, y)
  {
    LowWithin(W8, w, x, y);
  }

  lemma {:induction false} ByteOfPut(w: Width, x: Word, was: Word)
    ensures Low(W8, Put(w, x, was)) == Low(W8, x)
  {
    LowOfPut(w, x, was);
    LowestByte(w, Put(w, x, was), x);
  }

  /** Only the part in use matters of what is written. */
  lemma {:induction false} PutLow(w: Width, x: Word, y: Word, was: Word)
    requires Low(w, x) == Low(w, y)
    ensures Put(w, x, was) == Put(w, y, was)
  {}
}
