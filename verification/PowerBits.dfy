/**
 What each shift instruction does to its registers, bit by bit. Bits are numbered as in the manual,
 from 0 for the most significant to 31.
 */
module PowerBits {
  import opened BitWords
  import opened PowerShifts
  import opened PowerRegisters

  predicate Bit(x: bv32, k: bv32)
    requires k < 32
  {
    (x >> (31 - k)) & 1 == 1
  }

  lemma BitIsOdd(x: bv32, k: bv32)
    requires k < 32
    ensures Bit(x, k) == Odd(Shr(x, 31 - k))
  {
  }

  lemma {:induction false} ShrTwice(x: bv32, n: bv32, m: bv32)
    requires n < 32 && m < 32 && n + m < 32
    ensures Shr(Shr(x, n), m) == Shr(x, n + m)
    decreases m
  {
    hide Shr;
    if m == 0 {
      NoShift(Shr(x, n));
    } else {
      Smaller(n, m);
      ShrTwice(x, n, m - 1);
      ShrStep(Shr(x, n), m);
      ShrStep(x, n + m);
    }
  }

  lemma Smaller(n: bv32, m: bv32)
    requires n < 32 && 0 < m < 32 && n + m < 32
    ensures n + (m - 1) == n + m - 1 && 0 < n + m && n + m - 1 < 32
  {
  }

  /** Without its upper part nothing is left. */
  lemma ShrOut(x: bv32, n: bv32, k: bv32)
    requires k < n < 32
    ensures !Bit(Shr(x, n), k)
  {
  }

  lemma Moved(n: bv32, k: bv32)
    requires n <= k < 32
    ensures n + (31 - k) == 31 - (k - n) && n + (31 - k) < 32 && k - n < 32
  {
  }

  lemma ShrBit(d: bv32, n: bv32, k: bv32)
    requires n < 32 && k < 32
    ensures Bit(Shr(d, n), k) <==> n <= k && Bit(d, k - n)
  {
    hide Shr, Odd, Bit;
    if n <= k {
      Moved(n, k);
      BitIsOdd(Shr(d, n), k);
      BitIsOdd(d, k - n);
      ShrTwice(d, n, 31 - k);
    } else {
      ShrOut(d, n, k);
    }
  }

  lemma ShlOneBit(x: bv32, k: bv32)
    requires k < 32
    ensures Bit(Shl(x, 1), k) <==> k < 31 && Bit(x, k + 1)
  {
  }

  lemma OneLess(n: bv32, k: bv32)
    requires 0 < n < 32 && k < 32
    ensures k + 1 + (n - 1) == k + n && (k < 31 && k + 1 + (n - 1) < 32 <==> k + n < 32)
  {
  }

  lemma {:induction false} ShlBit(d: bv32, n: bv32, k: bv32)
    requires n < 32 && k < 32
    ensures Bit(Shl(d, n), k) <==> k + n < 32 && Bit(d, k + n)
    decreases n
  {
    hide Shl, Bit;
    if n == 0 {
      NoShift(d);
    } else {
      OneLess(n, k);
      ShlStep(d, n);
      ShlOneBit(Shl(d, n - 1), k);
      if k < 31 {
        ShlBit(d, n - 1, k + 1);
      }
    }
  }

  function And(x: bv32, m: bv32): bv32 { x & m }
  function Not(m: bv32): bv32 { !m }

  lemma AndBit(x: bv32, m: bv32, k: bv32)
    requires k < 32
    ensures Bit(And(x, m), k) <==> Bit(x, k) && Bit(m, k)
  {
  }

  lemma NotBit(m: bv32, k: bv32)
    requires k < 32
    ensures Bit(Not(m), k) <==> !Bit(m, k)
  {
  }

  lemma AllOnes(k: bv32)
    requires k < 32
    ensures Bit(0xFFFF_FFFF, k)
  {
  }

  lemma JoinBit(x: bv32, y: bv32, k: bv32)
    requires k < 32
    ensures Bit(Join(x, y), k) <==> Bit(x, k) || Bit(y, k)
  {
  }

  /** The low `n` bits, all but those, the upper `n` bits, and all but those. */
  lemma MaskBits(n: bv32, k: bv32)
    requires n < 32 && k < 32
    ensures Bit(Shr(0xFFFF_FFFF, n), k) <==> n <= k
    ensures Bit(Shl(0xFFFF_FFFF, n), k) <==> k + n < 32
  {
    hide Shl, Shr, Bit;
    ShrBit(0xFFFF_FFFF, n, k);
    ShlBit(0xFFFF_FFFF, n, k);
    if n <= k {
      AllOnes(k - n);
    }
    if k + n < 32 {
      AllOnes(k + n);
    }
  }

  lemma LowForm(x: bv32, n: bv32)
    requires n < 32
    ensures LowBits(x, n) == And(x, Not(Shl(0xFFFF_FFFF, n)))
  {
    LowMask(n);
  }

  lemma Under(x: bv32, n: bv32, m: bv32)
    requires n < 32 && RotMask(n, 31) == m
    ensures Below(x, n) == And(x, m)
  {
    hide RotMask;
  }

  lemma RightMask(n: bv32)
    requires n < 32
    ensures 0xFFFF_FFFF >> n == Shr(0xFFFF_FFFF, n)
  {
  }

  lemma LeftMask(n: bv32)
    requires n < 32
    ensures 0xFFFF_FFFF << n == Shl(0xFFFF_FFFF, n)
  {
  }

  lemma UpperMask(n: bv32)
    requires n < 32
    ensures !(0xFFFF_FFFF >> n) == Not(Shr(0xFFFF_FFFF, n))
  {
    RightMask(n);
    hide Shr;
  }

  lemma Masked(x: bv32, n: bv32)
    requires n < 32
    ensures High(x, n) == And(x, !(0xFFFF_FFFF >> n)) && Above(x, n) == And(x, 0xFFFF_FFFF << n)
  {
  }

  lemma BelowForm(x: bv32, n: bv32)
    requires n < 32
    ensures Below(x, n) == And(x, Shr(0xFFFF_FFFF, n))
  {
    hide Below, RotMask, And, Shr;
    HighMask(n);
    RightMask(n);
    Under(x, n, Shr(0xFFFF_FFFF, n));
  }

  lemma AboveForm(x: bv32, n: bv32)
    requires n < 32
    ensures Above(x, n) == And(x, Shl(0xFFFF_FFFF, n))
  {
    hide Above, High, And, Shl;
    LeftMask(n);
    Masked(x, n);
  }

  lemma HighForm(x: bv32, n: bv32)
    requires n < 32
    ensures High(x, n) == And(x, Not(Shr(0xFFFF_FFFF, n)))
  {
    hide Above, High, And, Shr, Not;
    UpperMask(n);
    Masked(x, n);
  }

  lemma MaskedBit(x: bv32, n: bv32, k: bv32)
    requires n < 32 && k < 32
    ensures Bit(LowBits(x, n), k) <==> k + n >= 32 && Bit(x, k)
    ensures Bit(Above(x, n), k) <==> k + n < 32 && Bit(x, k)
    ensures Bit(High(x, n), k) <==> k < n && Bit(x, k)
    ensures Bit(Below(x, n), k) <==> n <= k && Bit(x, k)
  {
    hide Shl, Shr, Bit, LowBits, Above, High, Below, And, Not;
    LowForm(x, n);
    BelowForm(x, n);
    AboveForm(x, n);
    HighForm(x, n);
    MaskBits(n, k);
    AndBit(x, Shl(0xFFFF_FFFF, n), k);
    AndBit(x, Not(Shl(0xFFFF_FFFF, n)), k);
    AndBit(x, Shr(0xFFFF_FFFF, n), k);
    AndBit(x, Not(Shr(0xFFFF_FFFF, n)), k);
    NotBit(Shl(0xFFFF_FFFF, n), k);
    NotBit(Shr(0xFFFF_FFFF, n), k);
  }

  lemma LeftTurn(n: bv32, k: bv32)
    requires 0 < n < 32 && k < 32
    ensures (k + n) & 31 == if k + n < 32 then k + n else k - (32 - n)
    ensures 32 - n < 32 && (32 - n <= k <==> k + n >= 32)
  {
  }

  lemma RightTurn(n: bv32, k: bv32)
    requires 0 < n < 32 && k < 32
    ensures (k - n) & 31 == if n <= k then k - n else k + (32 - n)
    ensures 32 - n < 32 && (k + (32 - n) < 32 <==> k < n)
  {
  }

  lemma NoTurn(d: bv32, k: bv32)
    requires k < 32
    ensures Rotl(d, 0) == d && Rotr(d, 0) == d && k & 31 == k
  {
  }

  lemma RotlBit(d: bv32, n: bv32, k: bv32)
    requires n < 32 && k < 32
    ensures Bit(Rotl(d, n), k) <==> Bit(d, (k + n) & 31)
  {
    hide Rotl, Shl, Shr, Join, Bit;
    if n == 0 {
      NoTurn(d, k);
    } else {
      LeftTurn(n, k);
      RotlJoin(d, n);
      JoinBit(Shl(d, n), Shr(d, 32 - n), k);
      ShlBit(d, n, k);
      ShrBit(d, 32 - n, k);
    }
  }

  lemma RotrBit(d: bv32, n: bv32, k: bv32)
    requires n < 32 && k < 32
    ensures Bit(Rotr(d, n), k) <==> Bit(d, (k - n) & 31)
  {
    hide Rotr, Shl, Shr, Join, Bit;
    if n == 0 {
      NoTurn(d, k);
    } else {
      RightTurn(n, k);
      RotrJoin(d, n);
      JoinBit(Shr(d, n), Shl(d, 32 - n), k);
      ShrBit(d, n, k);
      ShlBit(d, 32 - n, k);
    }
  }

  // ----- One instruction

  lemma NoBits(k: bv32)
    requires k < 32
    ensures !Bit(0, k)
  {
  }

  /** Bit `k` of `x` moved to the left by `n`, and where that leaves no bit of it. */
  predicate LeftBy(x: bv32, n: bv32, k: bv32)
    requires n < 32 && k < 32
  {
    k + n < 32 && Bit(x, k + n)
  }

  predicate FreeOnRight(n: bv32, k: bv32) { k + n >= 32 }

  /** The same to the right. */
  predicate RightBy(x: bv32, n: bv32, k: bv32)
    requires n < 32 && k < 32
  {
    n <= k && Bit(x, k - n)
  }

  predicate FreeOnLeft(n: bv32, k: bv32) { k < n }

  /** Bit `k` of `x` turned to the left or to the right. */
  predicate TurnedLeft(x: bv32, n: bv32, k: bv32) { Bit(x, (k + n) & 31) }
  predicate TurnedRight(x: bv32, n: bv32, k: bv32) { Bit(x, (k - n) & 31) }

  lemma MovedLeft(d: bv32, n: bv32, k: bv32)
    requires n < 32 && k < 32
    ensures Bit(Shl(d, n), k) <==> LeftBy(d, n, k)
  {
    hide Shl, Bit;
    ShlBit(d, n, k);
  }

  lemma MovedRight(d: bv32, n: bv32, k: bv32)
    requires n < 32 && k < 32
    ensures Bit(Shr(d, n), k) <==> RightBy(d, n, k)
  {
    hide Shr, Bit;
    ShrBit(d, n, k);
  }

  lemma Turned(d: bv32, n: bv32, k: bv32)
    requires n < 32 && k < 32
    ensures Bit(Rotl(d, n), k) <==> TurnedLeft(d, n, k)
    ensures Bit(Rotr(d, n), k) <==> TurnedRight(d, n, k)
  {
    hide Rotl, Rotr, Bit;
    RotlBit(d, n, k);
    RotrBit(d, n, k);
  }

  lemma KeptBits(x: bv32, n: bv32, k: bv32)
    requires n < 32 && k < 32
    ensures Bit(LowBits(x, n), k) <==> FreeOnRight(n, k) && Bit(x, k)
    ensures Bit(Above(x, n), k) <==> !FreeOnRight(n, k) && Bit(x, k)
    ensures Bit(High(x, n), k) <==> FreeOnLeft(n, k) && Bit(x, k)
    ensures Bit(Below(x, n), k) <==> !FreeOnLeft(n, k) && Bit(x, k)
  {
    hide LowBits, Above, High, Below, Bit;
    MaskedBit(x, n, k);
  }

  lemma SarBit(x: bv32, n: bv32, k: bv32)
    requires n < 32 && k < 32
    ensures Bit(Sar(x, n), k) <==> RightBy(x, n, k) || (FreeOnLeft(n, k) && Bit(x, 0))
  {
    hide Shl, Shr, Rotl, Rotr, High, Join, Bit, Negative, LeftBy, RightBy, FreeOnLeft, FreeOnRight;
    SignBit(x);
    MovedRight(x, n, k);
    JoinBit(Shr(x, n), High(0xFFFF_FFFF, n), k);
    KeptBits(0xFFFF_FFFF, n, k);
    AllOnes(k);
  }

  lemma SignBit(x: bv32)
    ensures Bit(x, 0) <==> Negative(x)
  {
  }

  lemma SleqForm(d: bv32, b: bv32, mq: bv32)
    ensures Sleq(d, b, mq) == Out(Join(Shl(d, Amount(b)), LowBits(mq, Amount(b))), Rotl(d, Amount(b)))
  {
    hide Shl, Rotl, RotMask, Insert, LowBits, Join, Amount;
    InsertBits(d, mq, Amount(b));
  }

  lemma SrlqForm(d: bv32, b: bv32, mq: bv32)
    ensures Srlq(d, b, mq) == Out(if Far(b) then Below(mq, Amount(b)) else Join(Shr(d, Amount(b)), High(mq, Amount(b))), mq)
  {
    hide Shr, Rotr, RotMask, Insert, High, Join, Below, Amount, Far;
    NearInsert(d, mq, Amount(b));
  }

  /** The bits of the result and of MQ of the shifts to the left. */
  lemma LeftBits(d: bv32, b: bv32, mq: bv32, k: bv32)
    requires k < 32
    ensures var n := Amount(b);
            && (Bit(Sle(d, b).a, k) <==> LeftBy(d, n, k))
            && (Bit(Sleq(d, b, mq).a, k) <==> LeftBy(d, n, k) || (FreeOnRight(n, k) && Bit(mq, k)))
            && (Bit(Slq(d, b).a, k) <==> !Far(b) && LeftBy(d, n, k))
            && (Bit(Sllq(d, b, mq).a, k) <==>
                  if Far(b) then !FreeOnRight(n, k) && Bit(mq, k) else LeftBy(d, n, k) || (FreeOnRight(n, k) && Bit(mq, k)))
            && (Bit(Sle(d, b).mq, k) <==> TurnedLeft(d, n, k))
            && Sleq(d, b, mq).mq == Sle(d, b).mq == Slq(d, b).mq && Sllq(d, b, mq).mq == mq
  {
    hide Shl, Shr, Rotl, Rotr, LowBits, Above, High, Below, Insert, RotMask, Join, Bit, Amount, Far;
    hide LeftBy, RightBy, FreeOnLeft, FreeOnRight, TurnedLeft, TurnedRight;
    hide Sleq;
    var n := Amount(b);
    SleqForm(d, b, mq);
    NoBits(k);
    MovedLeft(d, n, k);
    Turned(d, n, k);
    KeptBits(mq, n, k);
    JoinBit(Shl(d, n), LowBits(mq, n), k);
  }

  /** And of the shifts to the right. */
  lemma RightBits(d: bv32, b: bv32, mq: bv32, k: bv32)
    requires k < 32
    ensures var n := Amount(b);
            && (Bit(Sre(d, b).a, k) <==> RightBy(d, n, k))
            && (Bit(Sreq(d, b, mq).a, k) <==> RightBy(d, n, k) || (FreeOnLeft(n, k) && Bit(mq, k)))
            && (Bit(Srea(d, b).a, k) <==> RightBy(d, n, k) || (FreeOnLeft(n, k) && Bit(d, 0)))
            && (Bit(Srq(d, b).a, k) <==> !Far(b) && RightBy(d, n, k))
            && (Bit(Srlq(d, b, mq).a, k) <==>
                  if Far(b) then !FreeOnLeft(n, k) && Bit(mq, k) else RightBy(d, n, k) || (FreeOnLeft(n, k) && Bit(mq, k)))
            && (Bit(Sre(d, b).mq, k) <==> TurnedRight(d, n, k))
            && Sreq(d, b, mq).mq == Srea(d, b).mq == Srq(d, b).mq == Sre(d, b).mq && Srlq(d, b, mq).mq == mq
  {
    hide Shl, Shr, Rotl, Rotr, LowBits, Above, High, Below, Insert, RotMask, Join, Bit, Amount, Far, Sar;
    hide LeftBy, RightBy, FreeOnLeft, FreeOnRight, TurnedLeft, TurnedRight;
    hide Srlq;
    var n := Amount(b);
    SrlqForm(d, b, mq);
    NoBits(k);
    SarBit(d, n, k);
    MovedRight(d, n, k);
    Turned(d, n, k);
    KeptBits(mq, n, k);
    JoinBit(Shr(d, n), High(mq, n), k);
  }

  lemma MaskgBit(d: bv32, b: bv32, k: bv32)
    requires k < 32
    ensures Bit(Maskg(d, b), k) <==> InRange(Amount(d), Amount(b), k)
  {
    hide Maskg, RotMask, Amount, Bit, InRange;
    MaskgForm(d, b);
    RotMaskBit(Amount(d), Amount(b), k);
  }

  lemma MaskgForm(d: bv32, b: bv32)
    ensures Maskg(d, b) == RotMask(Amount(d), Amount(b))
  {
    hide Maskg, RotMask;
    MaskgIsRotMask(d, b);
  }

  lemma RotMaskBit(mb: bv32, me: bv32, k: bv32)
    requires mb < 32 && me < 32 && k < 32
    ensures Bit(RotMask(mb, me), k) <==> InRange(mb, me, k)
  {
    hide RotMask;
    RotMaskBits(mb, me, k);
  }

  /** The bits from `first` to `last`, which may wrap around. */
  predicate InRange(first: bv32, last: bv32, k: bv32) {
    if first <= last then first <= k <= last else k >= first || k <= last
  }

  /**
   What an executed instruction leaves in rA: bit by bit, with `d` in rS and a shift by `n`, the low
   five bits of rB; the bit 0x20 of rB asks for 32 more.
   */
  lemma ExecutedBits(op: Opcode, rec: bool, s: Reg, a: Reg, b: Reg, r: Regs, k: bv32)
    requires r.Ok() && k < 32
    ensures var d, n, far := r.gpr[s], Amount(r.gpr[b]), Far(r.gpr[b]);
            Bit(Executed(op, rec, s, a, b, r).gpr[a], k) <==>
            match op
            case SLE => LeftBy(d, n, k)
            case SLEQ => LeftBy(d, n, k) || (FreeOnRight(n, k) && Bit(r.mq, k))
            case SLQ => !far && LeftBy(d, n, k)
            case SLLQ => if far then !FreeOnRight(n, k) && Bit(r.mq, k) else LeftBy(d, n, k) || (FreeOnRight(n, k) && Bit(r.mq, k))
            case SRE => RightBy(d, n, k)
            case SREQ => RightBy(d, n, k) || (FreeOnLeft(n, k) && Bit(r.mq, k))
            case SREA => RightBy(d, n, k) || (FreeOnLeft(n, k) && Bit(d, 0))
            case SRQ => !far && RightBy(d, n, k)
            case SRLQ => if far then !FreeOnLeft(n, k) && Bit(r.mq, k) else RightBy(d, n, k) || (FreeOnLeft(n, k) && Bit(r.mq, k))
            case MASKG => InRange(Amount(d), n, k)
  {
    hide Sle, Sleq, Sre, Sreq, Srea, Slq, Sllq, Srq, Srlq, Maskg, Recorded, Carried, Bit, Amount, Far;
    hide LeftBy, RightBy, FreeOnLeft, FreeOnRight, InRange;
    var d, b32 := r.gpr[s], r.gpr[b];
    LeftBits(d, b32, r.mq, k);
    RightBits(d, b32, r.mq, k);
    MaskgBit(d, b32, k);
  }

  /** And in MQ: the turned word, or what was there. */
  lemma ExecutedMq(op: Opcode, rec: bool, s: Reg, a: Reg, b: Reg, r: Regs, k: bv32)
    requires r.Ok() && k < 32
    ensures var x, n := Executed(op, rec, s, a, b, r), Amount(r.gpr[b]);
            && (op in {SLE, SLEQ, SLQ} ==> (Bit(x.mq, k) <==> TurnedLeft(r.gpr[s], n, k)))
            && (op in {SRE, SREQ, SREA, SRQ} ==> (Bit(x.mq, k) <==> TurnedRight(r.gpr[s], n, k)))
            && (op in {SLLQ, SRLQ, MASKG} ==> x.mq == r.mq)
  {
    hide Sle, Sleq, Sre, Sreq, Srea, Slq, Sllq, Srq, Srlq, Maskg, Recorded, Carried, Bit, Amount, Far;
    hide LeftBy, RightBy, FreeOnLeft, FreeOnRight, TurnedLeft, TurnedRight;
    var d, b32 := r.gpr[s], r.gpr[b];
    LeftBits(d, b32, r.mq, k);
    RightBits(d, b32, r.mq, k);
  }

  /** The amount is the number in rB modulo 32, and 32 more are asked for when its next bit is set. */
  lemma AmountIs(b: bv32)
    ensures Val(Amount(b)) == Val(b) % 32 && (Far(b) <==> Val(b) / 32 % 2 == 1)
    ensures Val(Amount64(b)) == Val(b) % 64
  {
    hide Val, Shr, Odd, LowBits;
    AmountBits(b);
    ValLow(b, 5);
    ValLow(b, 6);
    ValShr(b, 5);
    ValHalf(Shr(b, 5));
    assert Pow2(5) == 32 && Pow2(6) == 64;
  }

  lemma AmountBits(b: bv32)
    ensures Amount(b) == LowBits(b, 5) && (Far(b) <==> Odd(Shr(b, 5))) && Amount64(b) == LowBits(b, 6)
  {
  }

  // ----- The other registers

  /** No other register changes. */
  lemma ExecutedOthers(op: Opcode, rec: bool, s: Reg, a: Reg, b: Reg, r: Regs)
    requires r.Ok()
    ensures forall k: Reg :: k != a ==> Executed(op, rec, s, a, b, r).gpr[k] == r.gpr[k]
  {
    hide Result, Recorded, Carried;
  }

  /** What a recording instruction does to CR: field 0 tells the sign of the result and XER[SO], the rest stays. */
  predicate Records(now: bv32, before: bv32, xer: bv32, result: bv32) {
    && now & 0x0FFF_FFFF == before & 0x0FFF_FFFF
    && (now & 0x8000_0000 != 0 <==> Bit(result, 0))
    && (now & 0x4000_0000 != 0 <==> result != 0 && !Bit(result, 0))
    && (now & 0x2000_0000 != 0 <==> result == 0)
    && (now & 0x1000_0000 != 0 <==> xer & 0x8000_0000 != 0)
  }

  lemma RecordedBits(cr: bv32, xer: bv32, result: bv32)
    ensures Records(Recorded(cr, xer, result), cr, xer, result)
  {
    hide Recorded;
    RecordedSign(cr, xer, result);
    RecordedRest(cr, xer, result);
    SignBit(result);
  }

  lemma ExecutedCr(op: Opcode, rec: bool, s: Reg, a: Reg, b: Reg, r: Regs)
    requires r.Ok()
    ensures var x := Executed(op, rec, s, a, b, r);
            if rec then Records(x.cr, r.cr, x.xer, x.gpr[a]) else x.cr == r.cr
  {
    hide Result, Recorded, Carried, Records;
    var x := Executed(op, rec, s, a, b, r);
    RecordedBits(r.cr, x.xer, x.gpr[a]);
  }

  predicate CarrySet(xer: bv32) { xer & 0x2000_0000 != 0 }
  predicate SameButCarry(x: bv32, y: bv32) { x & 0xDFFF_FFFF == y & 0xDFFF_FFFF }

  lemma CarryOnly(xer: bv32, carry: bool)
    ensures SameButCarry(WithCarry(xer, carry), xer) && (CarrySet(WithCarry(xer, carry)) <==> carry)
  {
  }

  lemma CarryMeans(xer: bv32, d: bv32, b: bv32)
    ensures SameButCarry(Carried(xer, d, b), xer)
    ensures CarrySet(Carried(xer, d, b)) <==> Signed([d]) < 0 && Signed([d]) % Pow2(Amount(b)) != 0
  {
    hide Signed, Pow2, Amount, WithCarry, CarrySet, SameButCarry, Rotr, High, Negative;
    CarryIffRounded(d, b, xer);
    CarryOnly(xer, Negative(d) && High(Rotr(d, Amount(b)), Amount(b)) != 0);
    CarryBit(xer);
  }

  /** XER changes only for srea, and then in CA, which says that a negative number was rounded. */
  lemma ExecutedXer(op: Opcode, rec: bool, s: Reg, a: Reg, b: Reg, r: Regs)
    requires r.Ok()
    ensures var x, d, p := Executed(op, rec, s, a, b, r), Signed([r.gpr[s]]), Pow2(Amount(r.gpr[b]));
            if op == SREA then SameButCarry(x.xer, r.xer) && (CarrySet(x.xer) <==> d < 0 && d % p != 0)
            else x.xer == r.xer
  {
    hide Result, Recorded, Carried, Signed, Pow2, Amount, CarrySet, SameButCarry;
    CarryMeans(r.xer, r.gpr[s], r.gpr[b]);
  }

  /** The operands are the three five-bit fields below the primary opcode. */
  lemma OperandFields(op: nat, s: Reg, a: Reg, b: Reg, rest: nat)
    requires rest < 2048
    ensures var opcode := (((op * 32 + s) * 32 + a) * 32 + b) * 2048 + rest;
            RegS(opcode) == s && RegA(opcode) == a && RegB(opcode) == b
  {
    var ops := op * 32 + s;
    var opa := ops * 32 + a;
    var opb := opa * 32 + b;
    FieldAt(opa, b, rest, 0x800);
    FieldAt(ops, a, b * 2048 + rest, 0x1_0000);
    FieldAt(op, s, a * 0x1_0000 + b * 2048 + rest, 0x20_0000);
  }

  lemma FieldAt(above: nat, field: Reg, below: nat, place: nat)
    requires place in {0x800, 0x1_0000, 0x20_0000} && below < place
    ensures ((above * 32 + field) * place + below) / place % 32 == field
  {
    DivUnique((above * 32 + field) * place + below, place, above * 32 + field, below);
    DivUnique(above * 32 + field, 32, above, field);
  }

  // ----- Pairs of registers

  /** The 64-bit number in two registers. */
  function Double(r: Regs, hi: Reg, lo: Reg): nat
    requires r.Ok()
  {
    Val(r.gpr[hi]) * 0x1_0000_0000 + Val(r.gpr[lo])
  }

  /** slq on the low word and then sllq on the high word shift the number left by up to 63 bits. */
  lemma RunPairLeftMultiplies(hi: Reg, lo: Reg, hiTo: Reg, loTo: Reg, b: Reg, r: Regs)
    requires r.Ok() && loTo != hi && loTo != b && loTo != hiTo
    ensures var n := Executed(SLLQ, false, hi, hiTo, b, Executed(SLQ, false, lo, loTo, b, r));
            && Double(n, hiTo, loTo) == Double(r, hi, lo) * Pow2(Amount64(r.gpr[b])) % 0x1_0000_0000_0000_0000
            && forall k: Reg :: k != hiTo && k != loTo ==> n.gpr[k] == r.gpr[k]
  {
    hide Slq, Sllq, Recorded, Carried, Val, Pow2, Amount64, Number;
    PairLeftMultiplies(r.gpr[hi], r.gpr[lo], r.gpr[b]);
    PairNumber(r.gpr[hi], r.gpr[lo]);
    var n := Executed(SLLQ, false, hi, hiTo, b, Executed(SLQ, false, lo, loTo, b, r));
    PairNumber(n.gpr[hiTo], n.gpr[loTo]);
    assert PairLeft(r.gpr[hi], r.gpr[lo], r.gpr[b]) == [n.gpr[hiTo], n.gpr[loTo]];
  }

  /** srq on the high word and then srlq on the low word shift it right. */
  lemma RunPairRightDivides(hi: Reg, lo: Reg, hiTo: Reg, loTo: Reg, b: Reg, r: Regs)
    requires r.Ok() && hiTo != lo && hiTo != b && hiTo != loTo
    ensures var n := Executed(SRLQ, false, lo, loTo, b, Executed(SRQ, false, hi, hiTo, b, r));
            && Double(n, hiTo, loTo) == Double(r, hi, lo) / Pow2(Amount64(r.gpr[b]))
            && forall k: Reg :: k != hiTo && k != loTo ==> n.gpr[k] == r.gpr[k]
  {
    hide Srq, Srlq, Recorded, Carried, Val, Pow2, Amount64, Number;
    PairRightDivides(r.gpr[hi], r.gpr[lo], r.gpr[b]);
    PairNumber(r.gpr[hi], r.gpr[lo]);
    var n := Executed(SRLQ, false, lo, loTo, b, Executed(SRQ, false, hi, hiTo, b, r));
    PairNumber(n.gpr[hiTo], n.gpr[loTo]);
    assert PairRight(r.gpr[hi], r.gpr[lo], r.gpr[b]) == [n.gpr[hiTo], n.gpr[loTo]];
  }
}
