/** 64-bit masks, field insertion and extraction, and concatenation of bit vectors built from them. */
module Bits {
  import opened Wrappers

  /** Bitwise and, or of `n`-bit numbers, from the lowest bit up. */
  function And(x: nat, y: nat, n: nat): nat {
    if n == 0 then 0 else (if x % 2 == 1 && y % 2 == 1 then 1 else 0) + 2 * And(x / 2, y / 2, n - 1)
  }

  function Or(x: nat, y: nat, n: nat): nat {
    if n == 0 then 0 else (if x % 2 == 1 || y % 2 == 1 then 1 else 0) + 2 * Or(x / 2, y / 2, n - 1)
  }

  /** The lowest `k` bits, the bits from `k` up, and `k` zeros put below: remainder, quotient and product
      with a power of two. */
  function Low(x: nat, k: nat): nat {
    if k == 0 then 0 else x % 2 + 2 * Low(x / 2, k - 1)
  }

  function ShiftRight(x: nat, k: nat): nat
    decreases k
  {
    if k == 0 then x else ShiftRight(x / 2, k - 1)
  }

  function Scale(x: nat, k: nat): nat
    decreases k
  {
    if k == 0 then x else 2 * Scale(x, k - 1)
  }

  lemma {:induction false} ScaleIsProduct(x: nat, k: nat)
    ensures Scale(x, k) == x * Pow2(k)
    decreases k
  {
    if k > 0 {
      ScaleIsProduct(x, k - 1);
      DoubleProduct(x, Pow2(k - 1));
    }
  }

  lemma {:induction false} LowIsRemainder(x: nat, k: nat)
    ensures Low(x, k) == x % Pow2(k) && ShiftRight(x, k) == x / Pow2(k)
    decreases k
  {
    if k > 0 {
      LowIsRemainder(x / 2, k - 1);
      HalfRemainder(x, Pow2(k - 1));
    }
  }

  /** Dividing by two first and by `m` then is dividing by `2 * m`. */
  lemma {:induction false} HalfRemainder(x: nat, m: nat)
    requires m > 0
    ensures x % (2 * m) == x % 2 + 2 * (x / 2 % m) && x / (2 * m) == x / 2 / m
  {
    var h, q, r := x / 2, x / 2 / m, x / 2 % m;
    assert h == q * m + r;
    DoubleProduct(q, m);
    assert x == q * (2 * m) + (x % 2 + 2 * r);
    ModuloIs(x, 2 * m, q, x % 2 + 2 * r);
    QuotientIs(x, 2 * m, q, x % 2 + 2 * r);
  }

  lemma {:induction false} DoubleProduct(x: nat, y: nat)
    ensures 2 * (x * y) == x * (2 * y)
  {}

  function ShiftLeft(x: nat, k: nat): nat {
    Low(Scale(x, k), 64)
  }

  function Not(x: nat): nat
    requires x < Pow2(64)
  {
    Pow2(64) - 1 - x
  }

  function Mask(width: nat): nat {
    if width >= 64 then Pow2(64) - 1 else Pow2(width) - 1
  }

  /** `None` where the code panics. */
  function BitInsert(target: nat, source: nat, start: nat, length: nat): Option<nat> {
    if start >= 64 then (if source == 0 then Some(0) else None)
    else
      LowFits(Scale(Mask(length), start), 64);
      var cleared := And(target, Not(ShiftLeft(Mask(length), start)), 64);
      var shifted := ShiftLeft(And(source, Mask(length), 64), start);
      Some(Or(cleared, shifted, 64))
  }

  function BitExtract(value: nat, start: nat, length: nat): nat {
    And(ShiftRight(value, start), Mask(length), 64)
  }

  /** Concatenation as it is lowered: the right operand zero-extended, the left inserted above it. */
  function Concat(left: nat, leftWidth: nat, right: nat, rightWidth: nat): Option<nat> {
    BitInsert(right, left, rightWidth, leftWidth)
  }

  lemma {:induction false} LowFits(x: nat, k: nat)
    ensures Low(x, k) < Pow2(k) && Low(x, k) <= x
    decreases k
  {
    if k > 0 {
      LowFits(x / 2, k - 1);
    }
  }

  lemma {:induction false} LowSmall(x: nat, k: nat)
    requires x < Pow2(k)
    ensures Low(x, k) == x && ShiftRight(x, k) == 0
    decreases k
  {
    if k > 0 {
      LowSmall(x / 2, k - 1);
    }
  }

  lemma {:induction false} ScaleFits(m: nat, start: nat, len: nat)
    requires m < Pow2(len)
    ensures Scale(m, start) < Pow2(start + len)
    decreases start
  {
    if start > 0 {
      ScaleFits(m, start - 1, len);
    }
  }

  lemma {:induction false} AndMask(x: nat, n: nat, k: nat)
    requires k <= n
    ensures And(x, Pow2(k) - 1, n) == Low(x, k)
    decreases n
  {
    if n > 0 {
      AndMask(x / 2, n - 1, if k > 0 then k - 1 else 0);
    }
  }

  /** Keeping the bits from `k` up. */
  lemma {:induction false} AndAbove(x: nat, n: nat, k: nat)
    requires k <= n && x < Pow2(n)
    ensures Pow2(k) <= Pow2(n) && And(x, Pow2(n) - Pow2(k), n) == x - Low(x, k)
    decreases n
  {
    Pow2Grows(k, n);
    if n > 0 {
      AndAbove(x / 2, n - 1, if k > 0 then k - 1 else 0);
    }
  }

  /** `len` bits of `x` from bit `start` up. */
  function Field(x: nat, start: nat, len: nat): nat {
    Low(ShiftRight(x, start), len)
  }

  /** Clearing a field leaves the rest. */
  lemma {:induction false} AndNotField(t: nat, n: nat, start: nat, len: nat)
    requires start + len <= n && t < Pow2(n)
    ensures Scale(Pow2(len) - 1, start) < Pow2(n)
    ensures And(t, Pow2(n) - 1 - Scale(Pow2(len) - 1, start), n) == t - Scale(Field(t, start, len), start)
    decreases start
  {
    ScaleFits(Pow2(len) - 1, start, len);
    Pow2Grows(start + len, n);
    if start == 0 {
      AndAbove(t, n, len);
    } else {
      AndNotField(t / 2, n - 1, start - 1, len);
      HalfMask(Pow2(n - 1), Scale(Pow2(len) - 1, start - 1));
    }
  }

  lemma {:induction false} HalfMask(p: nat, x: nat)
    requires x < p
    ensures (2 * p - 1 - 2 * x) % 2 == 1 && (2 * p - 1 - 2 * x) / 2 == p - 1 - x
  {}

  lemma {:induction false} OrZero(x: nat, n: nat)
    requires x < Pow2(n)
    ensures Or(x, 0, n) == x
    decreases n
  {
    if n > 0 {
      OrZero(x / 2, n - 1);
    }
  }

  lemma {:induction false} OrLow(t: nat, m: nat, n: nat, len: nat)
    requires len <= n && t < Pow2(n) && m < Pow2(len) && Low(t, len) == 0
    ensures Or(t, m, n) == t + m
    decreases len
  {
    if len == 0 {
      OrZero(t, n);
    } else {
      OrLow(t / 2, m / 2, n - 1, len - 1);
    }
  }

  /** Filling a cleared field adds to the rest. */
  lemma {:induction false} OrField(t: nat, m: nat, n: nat, start: nat, len: nat)
    requires start + len <= n && t < Pow2(n) && m < Pow2(len) && Field(t, start, len) == 0
    ensures Or(t, Scale(m, start), n) == t + Scale(m, start)
    decreases start
  {
    if start == 0 {
      OrLow(t, m, n, len);
    } else {
      OrField(t / 2, m, n - 1, start - 1, len);
    }
  }

  lemma {:induction false} ReplaceLow(t: nat, m: nat, len: nat)
    requires m < Pow2(len)
    ensures Low(t, len) <= t && Low(t - Low(t, len) + m, len) == m
    ensures ShiftRight(t - Low(t, len) + m, len) == ShiftRight(t, len)
    decreases len
  {
    LowFits(t, len);
    if len > 0 {
      ReplaceLow(t / 2, m / 2, len - 1);
      assert (t - Low(t, len) + m) / 2 == t / 2 - Low(t / 2, len - 1) + m / 2;
    }
  }

  lemma {:induction false} ScaledFieldFits(t: nat, start: nat, len: nat)
    ensures Scale(Field(t, start, len), start) <= t
    decreases start
  {
    if start == 0 {
      LowFits(t, len);
    } else {
      ScaledFieldFits(t / 2, start - 1, len);
    }
  }

  /** `t` with the field replaced by `m`. */
  function Replaced(t: nat, start: nat, len: nat, m: nat): nat {
    ScaledFieldFits(t, start, len);
    t - Scale(Field(t, start, len), start) + Scale(m, start)
  }

  lemma {:induction false} ReplaceField(t: nat, start: nat, len: nat, m: nat)
    requires m < Pow2(len)
    ensures var r := Replaced(t, start, len, m);
            && Field(r, start, len) == m && Low(r, start) == Low(t, start)
            && ShiftRight(r, start + len) == ShiftRight(t, start + len)
    decreases start
  {
    if start == 0 {
      ReplaceLow(t, m, len);
    } else {
      ReplaceField(t / 2, start - 1, len, m);
      ScaledFieldFits(t / 2, start - 1, len);
      assert Replaced(t, start, len, m) == t % 2 + 2 * Replaced(t / 2, start - 1, len, m);
    }
  }

  lemma {:induction false} ShiftLeftFits(m: nat, start: nat, len: nat)
    requires start + len <= 64 && m < Pow2(len)
    ensures ShiftLeft(m, start) == Scale(m, start)
  {
    hide Low, Scale, Pow2;
    ScaleFits(m, start, len);
    Pow2Grows(start + len, 64);
    LowSmall(Scale(m, start), 64);
  }

  /** Inserting replaces one field by the low bits of the source. */
  lemma {:induction false} InsertFits(t: nat, source: nat, start: nat, len: nat)
    requires start < 64 && start + len <= 64 && t < Pow2(64)
    ensures BitInsert(t, source, start, len) == Some(Replaced(t, start, len, Low(source, len)))
  {
    hide And, Or, Low, Scale, Pow2, ShiftRight, ShiftLeft, Field;
    var m := Low(source, len);
    LowFits(source, len);
    assert Mask(len) == Pow2(len) - 1;
    AndMask(source, 64, len);
    ShiftLeftFits(m, start, len);
    ShiftLeftFits(Pow2(len) - 1, start, len);
    AndNotField(t, 64, start, len);
    ScaledFieldFits(t, start, len);
    LowFits(0, len);
    ReplaceField(t, start, len, 0);
    ScaleZero(start);
    OrField(t - Scale(Field(t, start, len), start), m, 64, start, len);
  }

  /** Shifting left drops what does not fit. */
  lemma {:induction false} LowOfScale(x: nat, start: nat, n: nat)
    ensures Low(Scale(x, start), start + n) == Scale(Low(x, n), start)
    decreases start
  {
    if start > 0 {
      LowOfScale(x, start - 1, n);
    }
  }

  lemma {:induction false} LowOfLow(x: nat, k: nat, n: nat)
    requires n <= k
    ensures Low(Low(x, k), n) == Low(x, n)
    decreases n
  {
    if n > 0 {
      LowOfLow(x / 2, k - 1, n - 1);
      assert Low(x, k) / 2 == Low(x / 2, k - 1);
    }
  }

  lemma {:induction false} LowOfMask(k: nat, n: nat)
    requires n <= k
    ensures Low(Pow2(k) - 1, n) == Pow2(n) - 1
    decreases n
  {
    if n > 0 {
      LowOfMask(k - 1, n - 1);
      HalfMask(Pow2(k - 1), 0);
    }
  }

  /** A field that would reach past the word is cut off there. */
  lemma {:induction false} InsertCuts(t: nat, source: nat, start: nat, len: nat)
    requires start < 64 < start + len && t < Pow2(64)
    ensures BitInsert(t, source, start, len) == BitInsert(t, source, start, 64 - start)
  {
    hide And, Or, Low, Scale, Pow2, Not;
    var n, k := 64 - start, if len < 64 then len else 64;
    assert Mask(len) == Pow2(k) - 1 && Mask(n) == Pow2(n) - 1;
    AndMask(source, 64, k);
    AndMask(source, 64, n);
    LowOfScale(Pow2(k) - 1, start, n);
    LowOfScale(Pow2(n) - 1, start, n);
    LowOfMask(k, n);
    LowOfMask(n, n);
    LowOfScale(Low(source, k), start, n);
    LowOfScale(Low(source, n), start, n);
    LowOfLow(source, k, n);
    LowOfLow(source, n, n);
  }

  /** How many bits are inserted or extracted. */
  function Cut(start: nat, len: nat): nat {
    if start + len <= 64 then len else if start < 64 then 64 - start else 0
  }

  lemma {:induction false} InsertReplaces(t: nat, source: nat, start: nat, len: nat)
    requires start < 64 && t < Pow2(64)
    ensures BitInsert(t, source, start, len) == Some(Replaced(t, start, Cut(start, len), Low(source, Cut(start, len))))
  {
    hide BitInsert, Pow2, Low;
    if start + len > 64 {
      InsertCuts(t, source, start, len);
    }
    InsertFits(t, source, start, Cut(start, len));
  }

  lemma {:induction false} ScaleZero(k: nat)
    ensures Scale(0, k) == 0
    decreases k
  {
    if k > 0 {
      ScaleZero(k - 1);
    }
  }

  /** What is extracted: a quotient and a remainder by powers of two. */
  lemma {:induction false} ExtractIs(value: nat, start: nat, len: nat)
    ensures BitExtract(value, start, len) == value / Pow2(start) % Pow2(if len < 64 then len else 64)
  {
    hide And, Low, Pow2, ShiftRight;
    var k := if len < 64 then len else 64;
    assert Mask(len) == Pow2(k) - 1;
    AndMask(ShiftRight(value, start), 64, k);
    LowIsRemainder(value, start);
    LowIsRemainder(ShiftRight(value, start), k);
  }

  /** Inserting fails exactly when a value other than 0 is to be put past the word.  Otherwise the field, as far
      as it lies in the word, holds the source's low bits, and all bits below and above it are as they were. */
  lemma {:induction false} InsertKeeps(t: nat, source: nat, start: nat, len: nat)
    requires t < Pow2(64)
    ensures BitInsert(t, source, start, len).None? <==> start >= 64 && source != 0
    ensures start >= 64 && source == 0 ==> BitInsert(t, source, start, len) == Some(0)
    ensures start < 64 ==>
              var r, n := BitInsert(t, source, start, len).value, if start + len <= 64 then len else 64 - start;
              && r / Pow2(start) % Pow2(n) == source % Pow2(n)
              && r % Pow2(start) == t % Pow2(start) && r / Pow2(start + n) == t / Pow2(start + n)
  {
    if start < 64 {
      hide BitInsert, Low, Pow2, ShiftRight;
      var n := Cut(start, len);
      InsertReplaces(t, source, start, len);
      LowFits(source, n);
      var r := Replaced(t, start, n, Low(source, n));
      ReplaceField(t, start, n, Low(source, n));
      LowIsRemainder(source, n);
      LowIsRemainder(r, start);
      LowIsRemainder(t, start);
      LowIsRemainder(r, start + n);
      LowIsRemainder(t, start + n);
      LowIsRemainder(ShiftRight(r, start), n);
    }
  }

  /** Concatenation puts the left operand above the right one, unless the right one fills a word by itself. */
  lemma {:induction false} ConcatExactly(left: nat, leftWidth: nat, right: nat, rightWidth: nat)
    requires leftWidth + rightWidth <= 64 && left < Pow2(leftWidth) && right < Pow2(rightWidth)
    ensures Concat(left, leftWidth, right, rightWidth) == Some(left * Pow2(rightWidth) + right) <==>
              rightWidth < 64 || right == 0
  {
    ConcatScales(left, leftWidth, right, rightWidth);
    ScaleIsProduct(left, rightWidth);
  }

  lemma {:induction false} ConcatScales(left: nat, leftWidth: nat, right: nat, rightWidth: nat)
    requires leftWidth + rightWidth <= 64 && left < Pow2(leftWidth) && right < Pow2(rightWidth)
    ensures Concat(left, leftWidth, right, rightWidth) == Some(Scale(left, rightWidth) + right) <==>
              rightWidth < 64 || right == 0
  {
    hide Pow2, Scale, ShiftRight, ShiftLeft, Low, And, Or;
    if rightWidth < 64 {
      hide BitInsert;
      Pow2Grows(rightWidth, 64);
      InsertReplaces(right, left, rightWidth, leftWidth);
      LowSmall(right, rightWidth);
      LowSmall(left, leftWidth);
      LowFits(0, leftWidth);
      ScaleZero(rightWidth);
    } else {
      WidthZero(left, leftWidth);
      ScaleZero(rightWidth);
    }
  }

  lemma {:induction false} WidthZero(x: nat, width: nat)
    requires width == 0 && x < Pow2(width)
    ensures x == 0
  {}

  lemma {:induction false} ShiftZero(x: nat)
    ensures ShiftRight(x, 0) == x
  {}

  lemma {:induction false} Unpack(left: nat, right: nat, k: nat)
    requires right < Pow2(k)
    ensures Low(Scale(left, k) + right, k) == right && ShiftRight(Scale(left, k) + right, k) == left
    decreases k
  {
    if k > 0 {
      Unpack(left, right / 2, k - 1);
      assert (Scale(left, k) + right) / 2 == Scale(left, k - 1) + right / 2;
    }
  }

  /** Two extractions undo a concatenation. */
  lemma {:induction false} ConcatSplits(left: nat, leftWidth: nat, right: nat, rightWidth: nat)
    requires leftWidth + rightWidth <= 64 && rightWidth < 64 && left < Pow2(leftWidth) && right < Pow2(rightWidth)
    ensures var c := Concat(left, leftWidth, right, rightWidth);
            && c.Some? && BitExtract(c.value, 0, rightWidth) == right
            && BitExtract(c.value, rightWidth, leftWidth) == left
  {
    hide Concat, Pow2, Scale, ShiftRight, Low, And;
    var c := Scale(left, rightWidth) + right;
    ShiftZero(c);
    ConcatScales(left, leftWidth, right, rightWidth);
    Unpack(left, right, rightWidth);
    AndMask(c, 64, rightWidth);
    AndMask(left, 64, leftWidth);
    LowSmall(left, leftWidth);
  }

  lemma {:induction false} ScaleSum(x: nat, y: nat, k: nat)
    ensures Scale(x + y, k) == Scale(x, k) + Scale(y, k)
    decreases k
  {
    if k > 0 {
      ScaleSum(x, y, k - 1);
    }
  }

  lemma {:induction false} ScaleTwice(x: nat, a: nat, b: nat)
    ensures Scale(Scale(x, a), b) == Scale(x, a + b)
    decreases b
  {
    if b > 0 {
      ScaleTwice(x, a, b - 1);
    }
  }

  lemma {:induction false} PackFits(left: nat, leftWidth: nat, right: nat, rightWidth: nat)
    requires left < Pow2(leftWidth) && right < Pow2(rightWidth)
    ensures Scale(left, rightWidth) + right < Pow2(leftWidth + rightWidth)
    decreases rightWidth
  {
    if rightWidth > 0 {
      PackFits(left, leftWidth, right / 2, rightWidth - 1);
    }
  }

  /** Concatenation is associative. */
  lemma {:induction false} ConcatAssociative(a: nat, aw: nat, b: nat, bw: nat, c: nat, cw: nat)
    requires aw + bw + cw <= 64 && bw + cw < 64 && a < Pow2(aw) && b < Pow2(bw) && c < Pow2(cw)
    ensures var ab, bc := Concat(a, aw, b, bw), Concat(b, bw, c, cw);
            && ab.Some? && bc.Some?
            && Concat(ab.value, aw + bw, c, cw) == Concat(a, aw, bc.value, bw + cw)
  {
    hide Concat, Pow2, Scale;
    ConcatScales(a, aw, b, bw);
    ConcatScales(b, bw, c, cw);
    var ab, bc := Scale(a, bw) + b, Scale(b, cw) + c;
    PackFits(a, aw, b, bw);
    PackFits(b, bw, c, cw);
    ConcatScales(ab, aw + bw, c, cw);
    ConcatScales(a, aw, bc, bw + cw);
    ScaleSum(Scale(a, bw), b, cw);
    ScaleTwice(a, bw, cw);
  }

  function BitValue(b: bool): nat {
    if b then 1 else 0
  }

  /** A fold from the highest bit down that drops what is shifted out. */
  function FoldBits(bits: seq<bool>, acc: nat): nat {
    if bits == [] then acc
    else FoldBits(bits[..|bits| - 1], Or(ShiftLeft(acc, 1), BitValue(bits[|bits| - 1]), 64))
  }

  /** A bit literal, lowest bit first, as a word. */
  function BitsToInt(bits: seq<bool>): nat {
    FoldBits(bits, 0)
  }

  function Sum(bits: seq<bool>): nat {
    if bits == [] then 0 else BitValue(bits[0]) + 2 * Sum(bits[1..])
  }

  lemma {:induction false} SumFits(bits: seq<bool>)
    ensures Sum(bits) < Pow2(|bits|)
    decreases bits
  {
    if bits != [] {
      SumFits(bits[1..]);
    }
  }

  lemma {:induction false} SumAppend(a: seq<bool>, b: seq<bool>)
    ensures Sum(a + b) == Sum(a) + Scale(Sum(b), |a|)
    decreases a
  {
    if a == [] {
      assert a + b == b;
    } else {
      assert (a + b)[0] == a[0] && (a + b)[1..] == a[1..] + b;
      SumAppend(a[1..], b);
    }
  }

  lemma {:induction false} OrLastBit(acc: nat, bit: bool, n: nat)
    requires n > 0 && 2 * acc < Pow2(n)
    ensures Or(2 * acc, BitValue(bit), n) == 2 * acc + BitValue(bit)
  {
    OrZero(acc, n - 1);
  }

  lemma {:induction false} ShiftInBit(acc: nat, bit: bool, k: nat)
    requires acc < Pow2(k) && k < 64
    ensures Or(ShiftLeft(acc, 1), BitValue(bit), 64) == 2 * acc + BitValue(bit) < Pow2(k + 1)
  {
    assert Scale(acc, 1) == 2 * acc && Pow2(k + 1) == 2 * Pow2(k);
    hide Low, Or, Pow2;
    Pow2Grows(k + 1, 64);
    LowSmall(2 * acc, 64);
    OrLastBit(acc, bit, 64);
  }

  lemma {:induction false} FoldIsSum(bits: seq<bool>, acc: nat, k: nat)
    requires acc < Pow2(k) && k + |bits| <= 64
    ensures FoldBits(bits, acc) == Scale(acc, |bits|) + Sum(bits)
    decreases bits
  {
    if bits != [] {
      var last := |bits| - 1;
      var bit, rest := bits[last], bits[..last];
      hide Or, ShiftLeft, Pow2, Scale, Sum, BitValue;
      ShiftInBit(acc, bit, k);
      FoldIsSum(rest, 2 * acc + BitValue(bit), k + 1);
      assert rest + [bit] == bits;
      SumLast(rest, bit, acc);
    }
  }

  /** A bit appended at the top adds its place value, as does shifting it in below `acc`. */
  lemma {:induction false} SumLast(rest: seq<bool>, bit: bool, acc: nat)
    ensures Sum(rest + [bit]) == Sum(rest) + Scale(BitValue(bit), |rest|)
    ensures Scale(2 * acc + BitValue(bit), |rest|) == Scale(acc, |rest| + 1) + Scale(BitValue(bit), |rest|)
  {
    SumAppend(rest, [bit]);
    assert Sum([bit]) == BitValue(bit) + 2 * Sum([]);
    ScaleSum(2 * acc, BitValue(bit), |rest|);
    ScaleTwice(acc, 1, |rest|);
    assert Scale(acc, 1) == 2 * acc;
  }

  lemma {:induction false} SumBit(bits: seq<bool>, i: nat)
    requires i < |bits|
    ensures ShiftRight(Sum(bits), i) % 2 == if bits[i] then 1 else 0
    decreases i
  {
    assert Sum(bits) / 2 == Sum(bits[1..]);
    if i > 0 {
      SumBit(bits[1..], i - 1);
    }
  }

  /** Bit `i` of the word is bit `i` of the literal, and there are no others. */
  lemma {:induction false} LiteralBits(bits: seq<bool>, i: nat)
    requires |bits| <= 64
    ensures BitsToInt(bits) < Pow2(|bits|)
    ensures i < |bits| ==> BitsToInt(bits) / Pow2(i) % 2 == if bits[i] then 1 else 0
  {
    hide FoldBits, Sum, Pow2, ShiftRight;
    FoldIsSum(bits, 0, 0);
    ScaleZero(|bits|);
    SumFits(bits);
    if i < |bits| {
      SumBit(bits, i);
      LowIsRemainder(Sum(bits), i);
    }
  }

  /** Joining two bit literals is concatenating their values. */
  lemma {:induction false} LiteralsConcat(left: seq<bool>, right: seq<bool>)
    requires |left| + |right| <= 64 && |right| < 64
    ensures Concat(BitsToInt(left), |left|, BitsToInt(right), |right|) == Some(BitsToInt(right + left))
  {
    hide Concat, FoldBits, Sum;
    FoldIsSum(left, 0, 0);
    FoldIsSum(right, 0, 0);
    FoldIsSum(right + left, 0, 0);
    ScaleZero(|left|);
    ScaleZero(|right|);
    ScaleZero(|right + left|);
    SumAppend(right, left);
    SumFits(left);
    SumFits(right);
    ConcatScales(Sum(left), |left|, Sum(right), |right|);
  }
}
