/** 64-bit addition with the four condition flags. */
module AddWithCarry {
  import opened Rudder

  const WORD: int := 0x1_0000_0000_0000_0000
  const HALF: int := 0x8000_0000_0000_0000

  function Signed(x: Word): int {
    if x < HALF then x else x - WORD
  }

  function Complement(x: Word): Word {
    WORD - 1 - x
  }

  function Bit(b: bool): nat {
    if b then 1 else 0
  }

  /** The result and the flags N, Z, C, V as the bits 3 to 0 of one number. */
  function Add(a: Word, b: Word, carryIn: nat): (r: (Word, nat))
    requires carryIn <= 1
    ensures r.1 < 16
  {
    var unsignedSum := a + b + carryIn;
    var signedSum := Signed(a) + Signed(b) + carryIn;
    var result: Word := unsignedSum % WORD;
    var n := result / HALF;
    var z := Bit(result == 0);
    var c := Bit(result != unsignedSum);
    var v := Bit(Signed(result) != signedSum);
    (result, n * 8 + z * 4 + c * 2 + v)
  }

  predicate N(flags: nat) { flags / 8 % 2 == 1 }

  predicate Z(flags: nat) { flags / 4 % 2 == 1 }

  predicate C(flags: nat) { flags / 2 % 2 == 1 }

  predicate V(flags: nat) { flags % 2 == 1 }

  lemma {:induction false} FlagBits(n: nat, z: nat, c: nat, v: nat)
    requires n <= 1 && z <= 1 && c <= 1 && v <= 1
    ensures var flags := n * 8 + z * 4 + c * 2 + v;
            (N(flags) <==> n == 1) && (Z(flags) <==> z == 1) && (C(flags) <==> c == 1) && (V(flags) <==> v == 1)
  {}

  /** Each flag says what the architecture says it does: the top bit, zero, a carry out, and a sign that
      neither operand explains. */
  lemma {:induction false} FlagsMean(a: Word, b: Word, carryIn: nat)
    requires carryIn <= 1
    ensures var (result, flags) := Add(a, b, carryIn);
            && result == (if a + b + carryIn < WORD then a + b + carryIn else a + b + carryIn - WORD)
            && (N(flags) <==> Signed(result) < 0) && (Z(flags) <==> result == 0)
            && (C(flags) <==> a + b + carryIn >= WORD)
            && (V(flags) <==> (a >= HALF <==> b >= HALF) && (result >= HALF <==> a < HALF))
            && (V(flags) <==> !(-HALF <= Signed(a) + Signed(b) + carryIn < HALF))
  {
    var sum := a + b + carryIn;
    var result: Word := sum % WORD;
    assert result == if sum < WORD then sum else sum - WORD;
    assert result / HALF == if result < HALF then 0 else 1;
    var signed := Signed(a) + Signed(b) + carryIn;
    FlagBits(result / HALF, Bit(result == 0), Bit(result != sum), Bit(Signed(result) != signed));
    hide N, Z, C, V;
  }

  datatype Condition = EQ | NE | CS | CC | MI | PL | VS | VC | HI | LS | GE | LT | GT | LE

  predicate Holds(cond: Condition, flags: nat) {
    match cond
    case EQ => Z(flags)
    case NE => !Z(flags)
    case CS => C(flags)
    case CC => !C(flags)
    case MI => N(flags)
    case PL => !N(flags)
    case VS => V(flags)
    case VC => !V(flags)
    case HI => C(flags) && !Z(flags)
    case LS => !(C(flags) && !Z(flags))
    case GE => N(flags) == V(flags)
    case LT => N(flags) != V(flags)
    case GT => !Z(flags) && N(flags) == V(flags)
    case LE => !(!Z(flags) && N(flags) == V(flags))
  }

  /** What a condition says about two compared words. */
  predicate Compares(cond: Condition, a: Word, b: Word) {
    match cond
    case EQ => a == b
    case NE => a != b
    case CS => a >= b
    case CC => a < b
    case MI => Signed((a - b) % WORD) < 0
    case PL => Signed((a - b) % WORD) >= 0
    case VS => !(-HALF <= Signed(a) - Signed(b) < HALF)
    case VC => -HALF <= Signed(a) - Signed(b) < HALF
    case HI => a > b
    case LS => a <= b
    case GE => Signed(a) >= Signed(b)
    case LT => Signed(a) < Signed(b)
    case GT => Signed(a) > Signed(b)
    case LE => Signed(a) <= Signed(b)
  }

  lemma {:induction false} Wraps(x: int)
    ensures -WORD <= x < 0 ==> x % WORD == x + WORD
    ensures 0 <= x < WORD ==> x % WORD == x
  {}

  lemma {:induction false} Difference(a: Word, b: Word)
    ensures Add(a, Complement(b), 1).0 == (a - b) % WORD
  {
    Wraps(a - b);
  }

  /** The flags of a subtraction. */
  lemma {:induction false} DifferenceFlags(a: Word, b: Word)
    ensures var flags := Add(a, Complement(b), 1).1;
            && (N(flags) <==> Signed((a - b) % WORD) < 0) && (Z(flags) <==> a == b) && (C(flags) <==> a >= b)
            && (V(flags) <==> !(-HALF <= Signed(a) - Signed(b) < HALF))
  {
    hide Add, N, Z, C, V;
    FlagsMean(a, Complement(b), 1);
    Difference(a, b);
    Wraps(a - b);
    assert Signed(Complement(b)) == -1 - Signed(b);
  }

  /** Adding the complement and one subtracts, and every condition code then compares the operands. */
  lemma {:induction false} SubtractionCompares(a: Word, b: Word)
    ensures var (result, flags) := Add(a, Complement(b), 1);
            result == (a - b) % WORD && forall cond :: Holds(cond, flags) <==> Compares(cond, a, b)
  {
    hide Add, N, Z, C, V;
    Difference(a, b);
    DifferenceFlags(a, b);
    Wraps(a - b);
  }
}
