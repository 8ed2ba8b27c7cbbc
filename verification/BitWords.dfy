/** 32-bit words and the numbers they denote. */
module BitWords {

  function Shl(x: bv32, s: bv32): bv32
    requires s < 32
  {
    x << s
  }

  function Shr(x: bv32, s: bv32): bv32
    requires s < 32
  {
    x >> s
  }

  /** A mask of the low `s` bits. */
  function Low(s: bv32): bv32 {
    if s < 32 then (1 << s) - 1 else 0xFFFF_FFFF
  }

  function LowBits(x: bv32, s: bv32): bv32 { x & Low(s) }
  function Join(x: bv32, y: bv32): bv32 { x | y }
  predicate Apart(x: bv32, y: bv32) { x & y == 0 }
  predicate Odd(x: bv32) { x & 1 == 1 }

  // ----- ROTL_32 and ROTR_32

  function Rotl(x: bv32, n: bv32): bv32 { TurnLeft(x, n & 0x1F) }
  function Rotr(x: bv32, n: bv32): bv32 { TurnRight(x, n & 0x1F) }

  function TurnLeft(x: bv32, m: bv32): bv32
    requires m < 32
  {
    if m != 0 then Join(Shl(x, m), Shr(x, 32 - m)) else x
  }

  function TurnRight(x: bv32, m: bv32): bv32
    requires m < 32
  {
    if m != 0 then Join(Shr(x, m), Shl(x, 32 - m)) else x
  }

  // ----- Facts about bits

  lemma AmountKept(s: bv32)
    requires s < 32
    ensures s & 0x1F == s
  {
  }

  lemma NoShift(x: bv32)
    ensures Shr(x, 0) == x && Shl(x, 0) == x && LowBits(x, 0) == 0
  {
  }

  lemma WholeWord(x: bv32)
    ensures LowBits(x, 32) == x
  {
    assert Low(32) == 0xFFFF_FFFF;
  }

  lemma ShrStep(x: bv32, s: bv32)
    requires 0 < s < 32
    ensures Shr(x, s) == Shr(Shr(x, s - 1), 1)
  {
  }

  lemma LowHalf(x: bv32, s: bv32)
    requires 0 < s <= 32
    ensures Shr(LowBits(x, s), 1) == LowBits(Shr(x, 1), s - 1)
  {
  }

  lemma LowOdd(x: bv32, s: bv32)
    requires 0 < s <= 32
    ensures Odd(LowBits(x, s)) == Odd(x)
  {
  }

  lemma JoinHalf(x: bv32, y: bv32)
    ensures Shr(Join(x, y), 1) == Join(Shr(x, 1), Shr(y, 1))
    ensures Apart(x, y) ==> Apart(Shr(x, 1), Shr(y, 1))
  {
  }

  lemma JoinOdd(x: bv32, y: bv32)
    requires Apart(x, y)
    ensures Odd(Join(x, y)) <==> Odd(x) || Odd(y)
    ensures !(Odd(x) && Odd(y))
  {
  }

  lemma JoinNone(y: bv32)
    ensures Join(0, y) == y && Shr(0, 1) == 0 && !Odd(0)
  {
  }

  lemma ShlFits(x: bv32, s: bv32)
    requires 0 < s < 32 && LowBits(x, 32 - s) == x
    ensures LowBits(x, 32 - (s - 1)) == x
  {
  }

  lemma ShlStep(x: bv32, s: bv32)
    requires 0 < s < 32
    ensures Shl(x, s) == Shl(Shl(x, s - 1), 1)
  {
  }

  lemma ShlHalf(x: bv32, s: bv32)
    requires 0 < s < 32 && LowBits(x, 32 - s) == x
    ensures Shr(Shl(Shl(x, s - 1), 1), 1) == Shl(x, s - 1)
  {
  }

  lemma ShlOdd(y: bv32)
    ensures !Odd(Shl(y, 1))
  {
  }

  lemma SplitJoins(x: bv32, s: bv32)
    requires s < 32
    ensures Join(Shl(Shr(x, s), s), LowBits(x, s)) == x
  {
  }

  lemma SplitApart(x: bv32, s: bv32)
    requires s < 32
    ensures Apart(Shl(Shr(x, s), s), LowBits(x, s))
  {
  }

  lemma ShrFits(x: bv32, s: bv32)
    requires s < 32
    ensures LowBits(Shr(x, s), 32 - s) == Shr(x, s)
  {
  }

  lemma LowTwice(x: bv32, s: bv32)
    ensures LowBits(LowBits(x, s), s) == LowBits(x, s)
  {
  }

  // ----- The number a word denotes

  /** 2 to the power of a shift amount. */
  function Pow2(s: bv32): (r: nat)
    ensures r > 0
    decreases s
  {
    if s == 0 then 1 else 2 * Pow2(s - 1)
  }

  function Val(x: bv32): nat
    decreases x
  {
    if x == 0 then 0 else 2 * Val(Shr(x, 1)) + if Odd(x) then 1 else 0
  }

  lemma ValHalf(x: bv32)
    ensures Val(x) == 2 * Val(Shr(x, 1)) + if Odd(x) then 1 else 0
    ensures Val(0) == 0
  {
    JoinNone(x);
  }

  lemma {:induction false} ValFits(x: bv32, s: bv32)
    requires s <= 32 && LowBits(x, s) == x
    ensures Val(x) < Pow2(s)
    decreases s
  {
    hide Shr, LowBits, Odd, Val;
    ValHalf(x);
    if s == 0 {
      NoShift(x);
    } else {
      LowHalf(x, s);
      ValFits(Shr(x, 1), s - 1);
    }
  }

  /** Shifting right divides. */
  lemma {:induction false} ValShr(x: bv32, s: bv32)
    requires s < 32
    ensures Val(Shr(x, s)) == Val(x) / Pow2(s)
    decreases s
  {
    hide Shr, Odd, Val;
    if s == 0 {
      NoShift(x);
    } else {
      ShrStep(x, s);
      ValShr(x, s - 1);
      ValHalf(Shr(x, s - 1));
      DivTwice(Val(x), Pow2(s - 1));
    }
  }

  /** Masking takes the remainder. */
  lemma {:induction false} ValLow(x: bv32, s: bv32)
    requires s <= 32
    ensures Val(LowBits(x, s)) == Val(x) % Pow2(s)
    decreases s
  {
    hide Shr, LowBits, Odd, Val;
    ValHalf(x);
    if s == 0 {
      NoShift(x);
    } else {
      LowHalf(x, s);
      LowOdd(x, s);
      ValLow(Shr(x, 1), s - 1);
      ValHalf(LowBits(x, s));
      ModTwice(Val(x), Pow2(s - 1));
    }
  }

  /** Words without a common bit add up. */
  lemma {:induction false} ValJoin(x: bv32, y: bv32)
    requires Apart(x, y)
    ensures Val(Join(x, y)) == Val(x) + Val(y)
    decreases Val(x)
  {
    hide Shr, Join, Apart, Odd, Val;
    ValHalf(x);
    if x == 0 {
      JoinNone(y);
    } else {
      JoinHalf(x, y);
      JoinOdd(x, y);
      ValHalf(y);
      ValHalf(Join(x, y));
      ValPositive(x);
      ValJoin(Shr(x, 1), Shr(y, 1));
    }
  }

  lemma {:induction false} ValPositive(x: bv32)
    requires x != 0
    ensures Val(x) > 0
    decreases x
  {
    if Shr(x, 1) != 0 {
      ValPositive(Shr(x, 1));
    }
  }

  /** Shifting left multiplies when no bit is lost. */
  lemma {:induction false} ValShl(x: bv32, s: bv32)
    requires s < 32 && LowBits(x, 32 - s) == x
    ensures Val(Shl(x, s)) == Val(x) * Pow2(s)
    decreases s
  {
    hide Shr, Shl, LowBits, Odd, Val;
    if s == 0 {
      NoShift(x);
    } else {
      ShlFits(x, s);
      ValShl(x, s - 1);
      ShlStep(x, s);
      ShlHalf(x, s);
      ShlOdd(Shl(x, s - 1));
      ValHalf(Shl(Shl(x, s - 1), 1));
    }
  }

  /** The two parts of a word. */
  lemma ValSplit(x: bv32, s: bv32)
    requires s < 32
    ensures Val(x) == Val(Shr(x, s)) * Pow2(s) + Val(LowBits(x, s))
    ensures Val(Shr(x, s)) < Pow2(32 - s) && Val(LowBits(x, s)) < Pow2(s)
  {
    hide Shr, Shl, LowBits, Join, Apart, Val;
    SplitJoins(x, s);
    SplitApart(x, s);
    ShrFits(x, s);
    LowTwice(x, s);
    ValShl(Shr(x, s), s);
    ValJoin(Shl(Shr(x, s), s), LowBits(x, s));
    ValFits(Shr(x, s), 32 - s);
    ValFits(LowBits(x, s), s);
  }

  lemma AmountStep(s: bv32, t: bv32)
    requires 0 < s <= 32 && t <= 32
    ensures s - 1 + t == s + t - 1 && s + t != 0
  {
  }

  lemma {:induction false} PowSum(s: bv32, t: bv32)
    requires s <= 32 && t <= 32
    ensures Pow2(s) * Pow2(t) == Pow2(s + t)
    decreases s
  {
    if s > 0 {
      AmountStep(s, t);
      PowSum(s - 1, t);
      Twice(Pow2(s - 1), Pow2(t));
    }
  }

  lemma Twice(x: int, y: int)
    ensures 2 * x * y == 2 * (x * y)
  {
  }

  const WORD := 0x1_0000_0000

  lemma Pow32()
    ensures Pow2(32) == WORD
  {
    assert Pow2(8) == 256;
    PowSum(8, 8);
    PowSum(16, 16);
  }

  lemma WordBound(x: bv32)
    ensures Val(x) < WORD
  {
    hide LowBits, Val;
    WholeWord(x);
    ValFits(x, 32);
    Pow32();
  }

  // ----- Arithmetic

  lemma DivUnique(x: int, d: nat, q: int, r: nat)
    requires d > 0 && r < d && x == d * q + r
    ensures x / d == q && x % d == r
  {
    var e := x / d - q;
    assert d * e == d * (x / d) - d * q == r - x % d;
    NoMultiple(d, e);
  }

  /** A multiple of `d` strictly between -d and d is zero. */
  lemma NoMultiple(d: int, e: int)
    requires d > 0 && -d < d * e < d
    ensures e == 0
  {
  }

  lemma DivTwice(x: int, p: int)
    requires p > 0 && x >= 0
    ensures x / p / 2 == x / (2 * p)
  {
    var q, r := x / p, x % p;
    var h, b := q / 2, q % 2;
    assert p * q == p * (2 * h + b) == 2 * p * h + p * b;
    assert p * b == (if b == 0 then 0 else p);
    DivUnique(x, 2 * p, h, p * b + r);
  }

  lemma ModTwice(x: int, p: int)
    requires p > 0 && x >= 0
    ensures x % (2 * p) == 2 * (x / 2 % p) + x % 2
  {
    var h, b := x / 2, x % 2;
    var q, r := h / p, h % p;
    assert 2 * (p * q) == (2 * p) * q;
    DivUnique(x, 2 * p, q, 2 * r + b);
  }
}
