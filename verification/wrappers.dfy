/** Small shared definitions. */
module Wrappers {
  datatype Option<+T> = None | Some(value: T)

  /** The numbers below `n`. */
  ghost function Below(n: nat): (s: set<nat>)
    ensures forall b: nat :: b in s <==> b < n
  {
    if n == 0 then {} else Below(n - 1) + {n - 1}
  }

  function Pow2(n: nat): (p: nat)
    ensures p >= 1
  {
    if n == 0 then 1 else 2 * Pow2(n - 1)
  }

  lemma {:induction false} Pow2Grows(a: nat, b: nat)
    requires a <= b
    ensures Pow2(a) <= Pow2(b)
    decreases b
  {
    if a < b {
      Pow2Grows(a, b - 1);
    }
  }

  lemma {:induction false} Multiples(m: int, d: int)
    requires m > 0 && -m < d * m < m
    ensures d == 0
  {}

  lemma {:induction false} Distributes(m: nat, q: int, q': int)
    ensures (q' - q) * m == q' * m - q * m
  {}

  lemma {:induction false} ModuloIs(x: int, m: nat, q: int, r: nat)
    requires m > 0 && x == q * m + r && r < m
    ensures x % m == r
  {
    Distributes(m, q, x / m);
    assert x == x / m * m + x % m;
    Multiples(m, x / m - q);
  }

  lemma {:induction false} QuotientIs(x: nat, m: nat, q: nat, r: nat)
    requires m > 0 && x == q * m + r && r < m
    ensures x / m == q
  {
    Distributes(m, q, x / m);
    assert x == x / m * m + x % m;
    Multiples(m, x / m - q);
  }
}
