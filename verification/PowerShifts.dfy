/**
 What the POWER shifts with MQ of cpu/ppc/poweropcodes.cpp compute, as functions of the registers,
 and what chains of them do to numbers of many words.
 */
module PowerShifts {
  import opened BitWords

  /** The value for rA and the new value of MQ. */
  datatype Out = Out(a: bv32, mq: bv32)

  /** The rotate mask of section 4.2.1.4 of the PowerPC Programming Environments Manual. */
  function RotMask(mb: bv32, me: bv32): bv32
    requires mb < 32 && me < 32
  {
    var m1 := 0xFFFF_FFFF >> mb;
    var m2 := 0xFFFF_FFFF << (31 - me);
    if mb <= me then m2 & m1 else m1 | m2
  }

  /** The shift amount, and the bit that asks for 32 more. */
  function Amount(b: bv32): (s: bv32)
    ensures s < 32
  {
    b & 0x1F
  }

  predicate Far(b: bv32) { b & 0x20 != 0 }

  /** The bits of `r` under the mask, and those of `mq` elsewhere. */
  function Insert(r: bv32, mask: bv32, mq: bv32): bv32 { (r & mask) | (mq & !mask) }

  /** The upper `s` bits. */
  function High(x: bv32, s: bv32): bv32
    requires s < 32
  {
    x & !(0xFFFF_FFFF >> s)
  }

  predicate Negative(x: bv32) { x & 0x8000_0000 != 0 }

  /** A signed right shift. */
  function Sar(x: bv32, s: bv32): bv32
    requires s < 32
  {
    if Negative(x) then Join(Shr(x, s), High(0xFFFF_FFFF, s)) else Shr(x, s)
  }

  /** All but the low `s` bits, and all but the upper `s` bits. */
  function Above(x: bv32, s: bv32): bv32
    requires s < 32
  {
    x & (0xFFFF_FFFF << s)
  }

  function Below(x: bv32, s: bv32): bv32
    requires s < 32
  {
    x & RotMask(s, 31)
  }

  function Sle(d: bv32, b: bv32): Out {
    Out(Shl(d, Amount(b)), Rotl(d, Amount(b)))
  }

  function Sleq(d: bv32, b: bv32, mq: bv32): Out {
    var r := Rotl(d, Amount(b));
    Out(Insert(r, RotMask(0, 31 - Amount(b)), mq), r)
  }

  function Sre(d: bv32, b: bv32): Out {
    Out(Shr(d, Amount(b)), Rotr(d, Amount(b)))
  }

  function Sreq(d: bv32, b: bv32, mq: bv32): Out {
    Out(Join(Shr(d, Amount(b)), High(mq, Amount(b))), Rotr(d, Amount(b)))
  }

  function Srea(d: bv32, b: bv32): Out {
    Out(Sar(d, Amount(b)), Rotr(d, Amount(b)))
  }

  function Slq(d: bv32, b: bv32): Out {
    Out(if Far(b) then 0 else Shl(d, Amount(b)), Rotl(d, Amount(b)))
  }

  function Sllq(d: bv32, b: bv32, mq: bv32): Out {
    Out(if Far(b) then Above(mq, Amount(b)) else Join(Shl(d, Amount(b)), LowBits(mq, Amount(b))), mq)
  }

  function Srq(d: bv32, b: bv32): Out {
    Out(if Far(b) then 0 else Shr(d, Amount(b)), Rotr(d, Amount(b)))
  }

  function Srlq(d: bv32, b: bv32, mq: bv32): Out {
    Out(if Far(b) then Below(mq, Amount(b)) else Insert(Rotr(d, Amount(b)), RotMask(Amount(b), 31), mq), mq)
  }

  function Maskg(d: bv32, b: bv32): bv32 {
    var start := d & 0x1F;
    var end := b & 0x1F;
    if start < end + 1 then RotMask(start, end)
    else if start == end + 1 then 0xFFFF_FFFF
    else !RotMask(end + 1, start - 1)
  }

  // ----- maskg is the rotate mask

  lemma MaskgIsRotMask(d: bv32, b: bv32)
    ensures Maskg(d, b) == RotMask(d & 0x1F, b & 0x1F)
  {
  }

  /** Bit k, counted from the most significant, is set exactly when it lies in the range, which may wrap around. */
  lemma RotMaskBits(mb: bv32, me: bv32, k: bv32)
    requires mb < 32 && me < 32 && k < 32
    ensures (RotMask(mb, me) >> (31 - k)) & 1 == 1 <==> (if mb <= me then mb <= k <= me else k >= mb || k <= me)
  {
  }

  // ----- One word of a left shift

  /** What a rotated word in MQ carries into the next word up. */
  function Carry(mq: bv32, s: bv32): nat
    requires s < 32
  {
    Val(LowBits(mq, s))
  }

  lemma Spread(x: bv32, y: bv32, m: bv32)
    ensures (x | y) & m == (x & m) | (y & m)
  {
  }

  lemma LowJoin(x: bv32, y: bv32, s: bv32)
    requires s < 32
    ensures LowBits(x | y, s) == LowBits(x, s) | LowBits(y, s)
  {
    Spread(x, y, (1 << s) - 1);
  }

  lemma ZeroOr(x: bv32)
    ensures 0 | x == x
  {
  }

  lemma ShlLow(d: bv32, s: bv32)
    requires s < 32
    ensures LowBits(Shl(d, s), s) == 0
  {
  }

  lemma RotlJoin(d: bv32, s: bv32)
    requires 0 < s < 32
    ensures Rotl(d, s) == Join(Shl(d, s), Shr(d, 32 - s))
  {
    hide Shl, Shr, Join;
    AmountKept(s);
  }

  lemma LowJoined(x: bv32, y: bv32, s: bv32)
    requires s < 32 && LowBits(x, s) == 0
    ensures LowBits(Join(x, y), s) == LowBits(y, s)
  {
    LowJoin(x, y, s);
    ZeroOr(LowBits(y, s));
  }

  /** The low bits of a word rotated left are the bits that a shift would lose. */
  lemma RotlLow(d: bv32, s: bv32)
    requires 0 < s < 32
    ensures LowBits(Rotl(d, s), s) == Shr(d, 32 - s)
  {
    hide LowBits, Rotl, Shl, Shr, Join;
    RotlJoin(d, s);
    ShlLow(d, s);
    LowJoined(Shl(d, s), Shr(d, 32 - s), s);
    ShrFits(d, 32 - s);
  }

  lemma LeftBits(d: bv32, s: bv32)
    requires 0 < s < 32
    ensures Shl(d, s) == Shl(LowBits(d, 32 - s), s)
  {
  }

  lemma PowNone()
    ensures Pow2(0) == 1
  {
  }

  lemma LeftNone(d: bv32)
    ensures Shl(d, 0) == d && LowBits(Rotl(d, 0), 0) == 0
  {
  }

  /** The bits that leave a word on the left are what its rotation carries. */
  lemma LeftWord(d: bv32, s: bv32)
    requires s < 32
    ensures Val(Shl(d, s)) + Carry(Rotl(d, s), s) * WORD == Val(d) * Pow2(s)
    ensures Carry(Rotl(d, s), s) < Pow2(s)
  {
    hide Shl, Shr, LowBits, Rotl, Val, Pow2;
    PowNone();
    if s == 0 {
      LeftNone(d);
      ValHalf(0);
    } else {
      LeftBits(d, s);
      RotlLow(d, s);
      LowTwice(d, 32 - s);
      ValShl(LowBits(d, 32 - s), s);
      ValSplit(d, 32 - s);
      PowSum(32 - s, s);
      Pow32();
      Distribute(Val(Shr(d, 32 - s)), Pow2(32 - s), Val(LowBits(d, 32 - s)), Pow2(s));
    }
  }

  lemma Distribute(h: int, p: int, l: int, q: int)
    ensures (h * p + l) * q == h * (p * q) + l * q
  {
  }

  lemma LowMask(s: bv32)
    requires s < 32
    ensures RotMask(0, 31 - s) == 0xFFFF_FFFF << s && !RotMask(0, 31 - s) == Low(s)
  {
  }

  lemma ShlHigh(d: bv32, s: bv32)
    requires 0 < s < 32
    ensures Shl(d, s) & (0xFFFF_FFFF << s) == Shl(d, s)
  {
  }

  lemma ShrHigh(d: bv32, s: bv32)
    requires 0 < s < 32
    ensures Shr(d, 32 - s) & (0xFFFF_FFFF << s) == 0
  {
  }

  lemma OrZero(x: bv32)
    ensures x | 0 == x
  {
  }

  /** Without its low bits, a word rotated left is the word shifted left. */
  lemma RotlHigh(d: bv32, s: bv32)
    requires s < 32
    ensures Rotl(d, s) & (0xFFFF_FFFF << s) == Shl(d, s)
  {
    if s == 0 {
      RotlNone(d);
    } else {
      hide Rotl, Shl, Shr;
      RotlJoin(d, s);
      Spread(Shl(d, s), Shr(d, 32 - s), 0xFFFF_FFFF << s);
      ShlHigh(d, s);
      ShrHigh(d, s);
      OrZero(Shl(d, s));
    }
  }

  lemma RotlNone(d: bv32)
    ensures Rotl(d, 0) & (0xFFFF_FFFF << 0) == Shl(d, 0)
  {
  }

  lemma RotrJoin(d: bv32, s: bv32)
    requires 0 < s < 32
    ensures Rotr(d, s) == Join(Shr(d, s), Shl(d, 32 - s))
  {
    hide Shl, Shr, Join;
    AmountKept(s);
  }

  lemma ShrLow(d: bv32, s: bv32)
    requires 0 < s < 32
    ensures Shr(d, s) & (0xFFFF_FFFF >> s) == Shr(d, s)
  {
  }

  lemma ShlOut(d: bv32, s: bv32)
    requires 0 < s < 32
    ensures Shl(d, 32 - s) & (0xFFFF_FFFF >> s) == 0
  {
  }

  lemma RotrNone(d: bv32)
    ensures Rotr(d, 0) & (0xFFFF_FFFF >> 0) == Shr(d, 0)
  {
  }

  /** Without its upper bits, a word rotated right is the word shifted right. */
  lemma RotrLow(d: bv32, s: bv32)
    requires s < 32
    ensures Rotr(d, s) & (0xFFFF_FFFF >> s) == Shr(d, s)
  {
    if s == 0 {
      RotrNone(d);
    } else {
      hide Rotr, Shl, Shr;
      RotrJoin(d, s);
      Spread(Shr(d, s), Shl(d, 32 - s), 0xFFFF_FFFF >> s);
      ShrLow(d, s);
      ShlOut(d, s);
      OrZero(Shr(d, s));
    }
  }

  lemma ShlApart(d: bv32, mq: bv32, s: bv32)
    requires s < 32
    ensures Apart(Shl(d, s), LowBits(mq, s))
  {
  }

  lemma InsertBits(d: bv32, mq: bv32, s: bv32)
    requires s < 32
    ensures Insert(Rotl(d, s), RotMask(0, 31 - s), mq) == Join(Shl(d, s), LowBits(mq, s))
  {
    LowMask(s);
    RotlHigh(d, s);
  }

  /** sleq shifts in what MQ carries and leaves in MQ what it shifts out. */
  lemma SleqWord(d: bv32, b: bv32, mq: bv32)
    ensures var s := Amount(b);
            var o := Sleq(d, b, mq);
            Val(o.a) + Carry(o.mq, s) * WORD == Val(d) * Pow2(s) + Carry(mq, s) && Carry(o.mq, s) < Pow2(s)
  {
    hide Shl, Shr, LowBits, Rotl, Val, RotMask, Insert, Join, Apart, Amount;
    var s := Amount(b);
    InsertBits(d, mq, s);
    ShlApart(d, mq, s);
    ValJoin(Shl(d, s), LowBits(mq, s));
    LeftWord(d, s);
  }

  // ----- One word of a right shift

  lemma RightBits(d: bv32, s: bv32)
    requires 0 < s < 32
    ensures High(Rotr(d, s), s) == Shl(LowBits(d, s), 32 - s) && LowBits(LowBits(d, s), s) == LowBits(d, s)
  {
  }

  lemma RightNone(d: bv32)
    ensures High(Rotr(d, 0), 0) == 0 && LowBits(d, 0) == 0 && High(d, 0) == 0
  {
  }

  lemma ShrApart(d: bv32, mq: bv32, s: bv32)
    requires s < 32
    ensures Apart(Shr(d, s), High(mq, s))
  {
  }

  /** The bits that leave a word on the right, scaled to the word below, are the high part of its rotation. */
  lemma RightWord(d: bv32, s: bv32)
    requires s < 32
    ensures Val(High(Rotr(d, s), s)) * Pow2(s) == Val(LowBits(d, s)) * WORD
    ensures Val(LowBits(d, s)) < Pow2(s) && Val(d) == Val(Shr(d, s)) * Pow2(s) + Val(LowBits(d, s))
  {
    hide Shl, Shr, LowBits, Rotr, Val, High;
    ValSplit(d, s);
    if s == 0 {
      RightNone(d);
      ValHalf(0);
    } else {
      RightBits(d, s);
      ValShl(LowBits(d, s), 32 - s);
      PowSum(32 - s, s);
      Pow32();
      Regroup(Val(LowBits(d, s)), Pow2(32 - s), Pow2(s));
    }
  }

  lemma Regroup(x: int, p: int, q: int)
    ensures x * p * q == x * (p * q)
  {
  }

  /** sreq: if MQ brings down `rem` of the words above, the word and `rem` are divided. */
  lemma SreqWord(d: bv32, b: bv32, mq: bv32, rem: nat)
    requires Val(High(mq, Amount(b))) * Pow2(Amount(b)) == rem * WORD
    ensures var s := Amount(b);
            var o := Sreq(d, b, mq);
            var next := Val(LowBits(d, s));
            && Val(o.a) * Pow2(s) + next == Val(d) + rem * WORD
            && next < Pow2(s) && Val(High(o.mq, s)) * Pow2(s) == next * WORD
  {
    hide Shl, Shr, LowBits, Rotr, Val, High, Join, Apart, Amount;
    var s := Amount(b);
    ShrApart(d, mq, s);
    ValJoin(Shr(d, s), High(mq, s));
    RightWord(d, s);
    Distribute(1, Val(Shr(d, s)), Val(High(mq, s)), Pow2(s));
  }

  // ----- Numbers of many words, most significant first

  function WordPow(n: nat): (r: nat)
    ensures r > 0
  {
    if n == 0 then 1 else WORD * WordPow(n - 1)
  }

  function Number(ws: seq<bv32>): nat {
    if ws == [] then 0 else Number(ws[..|ws| - 1]) * WORD + Val(ws[|ws| - 1])
  }

  lemma {:induction false} NumberBound(ws: seq<bv32>)
    ensures Number(ws) < WordPow(|ws|)
    decreases |ws|
  {
    if ws != [] {
      NumberBound(ws[..|ws| - 1]);
      WordBound(ws[|ws| - 1]);
      assert (Number(ws[..|ws| - 1]) + 1) * WORD <= WordPow(|ws| - 1) * WORD;
    }
  }

  lemma NoNumber()
    ensures Number([]) == 0 && WordPow(0) == 1
  {
  }

  lemma {:induction false} NumberCons(w: bv32, ws: seq<bv32>)
    ensures Number([w] + ws) == Val(w) * WordPow(|ws|) + Number(ws)
    decreases |ws|
  {
    var all := [w] + ws;
    if ws == [] {
      assert all[..0] == [];
      assert Number(all[..|all| - 1]) == 0;
    } else {
      var init, last := ws[..|ws| - 1], ws[|ws| - 1];
      assert all[..|all| - 1] == [w] + init;
      NumberCons(w, init);
      Distribute(Val(w), WordPow(|init|), Number(init), WORD);
    }
  }

  // ----- Left: sle on the least significant word, then sleq upwards

  function Sleqs(ws: seq<bv32>, b: bv32, mq: bv32): (r: seq<bv32>)
    ensures |r| == |ws|
  {
    if ws == [] then []
    else
      var o := Sleq(ws[|ws| - 1], b, mq);
      Sleqs(ws[..|ws| - 1], b, o.mq) + [o.a]
  }

  function LeftChain(ws: seq<bv32>, b: bv32): (r: seq<bv32>)
    requires ws != []
    ensures |r| == |ws|
  {
    var o := Sle(ws[|ws| - 1], b);
    Sleqs(ws[..|ws| - 1], b, o.mq) + [o.a]
  }

  lemma {:induction false} SleqsNumber(ws: seq<bv32>, b: bv32, mq: bv32) returns (out: nat)
    ensures var s := Amount(b);
            Number(Sleqs(ws, b, mq)) + out * WordPow(|ws|) == Number(ws) * Pow2(s) + Carry(mq, s)
    decreases |ws|
  {
    hide Sleq, Val, Carry;
    var s := Amount(b);
    if ws == [] {
      out := Carry(mq, s);
    } else {
      var init, last := ws[..|ws| - 1], ws[|ws| - 1];
      var o := Sleq(last, b, mq);
      SleqWord(last, b, mq);
      out := SleqsNumber(init, b, o.mq);
      var rest := Sleqs(init, b, o.mq);
      assert (rest + [o.a])[..|init|] == rest;
      LeftStep(Number(rest), out, WordPow(|init|), Number(init), Pow2(s), Carry(o.mq, s), Val(o.a), Val(last), Carry(mq, s));
    }
  }

  lemma LeftStep(rest: int, out: int, wp: int, init: int, p: int, c: int, a: int, d: int, cin: int)
    requires rest + out * wp == init * p + c && a + c * WORD == d * p + cin
    ensures rest * WORD + a + out * (WORD * wp) == (init * WORD + d) * p + cin
  {
    assert (rest + out * wp) * WORD == (init * p + c) * WORD;
    assert out * wp * WORD == out * (WORD * wp) && init * p * WORD == init * WORD * p;
  }

  lemma SleWord(d: bv32, b: bv32)
    ensures var s := Amount(b);
            Val(Sle(d, b).a) + Carry(Sle(d, b).mq, s) * WORD == Val(d) * Pow2(s)
  {
    hide Val, Carry, Rotl, Shl, Amount;
    LeftWord(d, Amount(b));
  }

  lemma LeftChainNumber(ws: seq<bv32>, b: bv32) returns (out: nat)
    requires ws != []
    ensures Number(LeftChain(ws, b)) + out * WordPow(|ws|) == Number(ws) * Pow2(Amount(b))
  {
    hide Sle, Sleqs, Val, Carry, Pow2;
    var s := Amount(b);
    var init, last := ws[..|ws| - 1], ws[|ws| - 1];
    var o := Sle(last, b);
    SleWord(last, b);
    out := SleqsNumber(init, b, o.mq);
    var rest := Sleqs(init, b, o.mq);
    assert (rest + [o.a])[..|init|] == rest;
    LeftStep(Number(rest), out, WordPow(|init|), Number(init), Pow2(s), Carry(o.mq, s), Val(o.a), Val(last), 0);
  }

  /** The left chain multiplies by 2^s modulo 2^(32 n), for any number of words. */
  lemma LeftChainMultiplies(ws: seq<bv32>, b: bv32)
    requires ws != []
    ensures Number(LeftChain(ws, b)) == Number(ws) * Pow2(Amount(b)) % WordPow(|ws|)
  {
    hide LeftChain, Number, Pow2, WordPow;
    var out := LeftChainNumber(ws, b);
    NumberBound(LeftChain(ws, b));
    DivUnique(Number(ws) * Pow2(Amount(b)), WordPow(|ws|), out, Number(LeftChain(ws, b)));
  }

  // ----- Right: sre on the most significant word, or srea, then sreq downwards

  function Sreqs(ws: seq<bv32>, b: bv32, mq: bv32): (r: seq<bv32>)
    ensures |r| == |ws|
  {
    if ws == [] then []
    else
      var o := Sreq(ws[0], b, mq);
      [o.a] + Sreqs(ws[1..], b, o.mq)
  }

  function RightChain(ws: seq<bv32>, b: bv32): (r: seq<bv32>)
    requires ws != []
    ensures |r| == |ws|
  {
    var o := Sre(ws[0], b);
    [o.a] + Sreqs(ws[1..], b, o.mq)
  }

  function SignedRightChain(ws: seq<bv32>, b: bv32): (r: seq<bv32>)
    requires ws != []
    ensures |r| == |ws|
  {
    var o := Srea(ws[0], b);
    [o.a] + Sreqs(ws[1..], b, o.mq)
  }

  /** A chain of sreq divides the number with `rem` in front of it, and leaves a remainder. */
  lemma {:induction false} SreqsNumber(ws: seq<bv32>, b: bv32, mq: bv32, rem: nat) returns (last: nat)
    requires rem < Pow2(Amount(b)) && Val(High(mq, Amount(b))) * Pow2(Amount(b)) == rem * WORD
    ensures var s := Amount(b);
            Number(Sreqs(ws, b, mq)) * Pow2(s) + last == rem * WordPow(|ws|) + Number(ws) && last < Pow2(s)
    decreases |ws|
  {
    hide Sreq, Val, High, LowBits, Amount, Pow2, Number;
    var s := Amount(b);
    if ws == [] {
      last := rem;
      NoNumber();
    } else {
      var o := Sreq(ws[0], b, mq);
      SreqWord(ws[0], b, mq, rem);
      var next := Val(LowBits(ws[0], s));
      last := SreqsNumber(ws[1..], b, o.mq, next);
      NumberCons(o.a, Sreqs(ws[1..], b, o.mq));
      assert ws == [ws[0]] + ws[1..];
      NumberCons(ws[0], ws[1..]);
      RightStep(Val(o.a), Pow2(s), next, Val(ws[0]), rem, Number(Sreqs(ws[1..], b, o.mq)), last, Number(ws[1..]), WordPow(|ws| - 1));
    }
  }

  lemma RightStep(a: int, p: int, next: int, d: int, rem: int, rest: int, last: int, tail: int, wp: int)
    requires a * p + next == d + rem * WORD && rest * p + last == next * wp + tail
    ensures (a * wp + rest) * p + last == rem * (WORD * wp) + (d * wp + tail)
  {
    assert (a * p + next) * wp == (d + rem * WORD) * wp;
    assert a * p * wp == a * wp * p && rem * WORD * wp == rem * (WORD * wp);
  }

  lemma NothingAbove(x: bv32, s: bv32)
    requires s < 32
    ensures High(0, s) == 0 && Join(x, 0) == x
  {
  }

  lemma SreIsSreq(d: bv32, b: bv32)
    ensures Sre(d, b) == Sreq(d, b, 0)
  {
    hide Shr, Rotr, High, Join, Amount;
    NothingAbove(Shr(d, Amount(b)), Amount(b));
  }

  /** The right chain divides by 2^s, for any number of words. */
  lemma RightChainDivides(ws: seq<bv32>, b: bv32)
    requires ws != []
    ensures Number(RightChain(ws, b)) == Number(ws) / Pow2(Amount(b))
  {
    hide Sreq, Sre, Number, High, Val, Amount;
    var s := Amount(b);
    SreIsSreq(ws[0], b);
    NothingAbove(0, s);
    ValHalf(0);
    var last := SreqsNumber(ws, b, 0, 0);
    DivUnique(Number(ws), Pow2(s), Number(RightChain(ws, b)), last);
  }

  // ----- The signed right shift

  /** The number in two's complement. */
  function Signed(ws: seq<bv32>): int
    requires ws != []
  {
    Number(ws) - if Negative(ws[0]) then WordPow(|ws|) else 0
  }

  lemma SreaIsSreq(d: bv32, b: bv32)
    ensures Srea(d, b) == Sreq(d, b, if Negative(d) then 0xFFFF_FFFF else 0)
  {
    hide Shr, Rotr, High, Join, Amount, Negative;
    NothingAbove(Shr(d, Amount(b)), Amount(b));
  }

  lemma SarKeepsSign(d: bv32, s: bv32)
    requires s < 32
    ensures Negative(Sar(d, s)) == Negative(d)
  {
    if s == 0 {
    } else {
    }
  }

  lemma LowStep(s: bv32)
    requires 0 < s < 32
    ensures Shr(Low(s), 1) == Low(s - 1) && Odd(Low(s))
  {
  }

  lemma {:induction false} ValOnes(s: bv32)
    requires s < 32
    ensures Val(Low(s)) == Pow2(s) - 1
    decreases s
  {
    hide Shr, Odd, Val;
    ValHalf(Low(s));
    if s != 0 {
      LowStep(s);
      ValOnes(s - 1);
    } else {
      ValHalf(0);
    }
  }

  lemma OnesBits(s: bv32)
    requires 0 < s < 32
    ensures High(0xFFFF_FFFF, s) == Shl(Low(s), 32 - s) && LowBits(Low(s), s) == Low(s)
  {
  }

  lemma OnesAbove(s: bv32)
    requires s < 32
    ensures Val(High(0xFFFF_FFFF, s)) * Pow2(s) == (Pow2(s) - 1) * WORD
  {
    hide Shl, Low, LowBits, High, Val;
    if s == 0 {
      RightNone(0xFFFF_FFFF);
      ValHalf(0);
    } else {
      OnesBits(s);
      ValShl(Low(s), 32 - s);
      ValOnes(s);
      PowSum(32 - s, s);
      Pow32();
      Regroup(Pow2(s) - 1, Pow2(32 - s), Pow2(s));
    }
  }

  lemma PowPositive(s: bv32)
    ensures Pow2(s) > 0
  {
  }

  /** The right chain that starts with srea divides the signed number, rounding down. */
  lemma SignedRightChainDivides(ws: seq<bv32>, b: bv32)
    requires ws != []
    ensures Signed(SignedRightChain(ws, b)) == Signed(ws) / Pow2(Amount(b))
  {
    hide Sreq, Sar, Number, High, Val, Negative, Amount, Pow2, WordPow;
    PowPositive(Amount(b));
    var s := Amount(b);
    var r := SignedRightChain(ws, b);
    SreaIsSreq(ws[0], b);
    SarKeepsSign(ws[0], s);
    assert Negative(r[0]) == Negative(ws[0]);
    var top: nat := if Negative(ws[0]) then Pow2(s) - 1 else 0;
    if Negative(ws[0]) {
      OnesAbove(s);
    } else {
      NothingAbove(0, s);
      ValHalf(0);
    }
    var last := SreqsNumber(ws, b, if Negative(ws[0]) then 0xFFFF_FFFF else 0, top);
    SignedQuotient(Number(ws), Number(r), WordPow(|ws|), Pow2(s), last, Negative(ws[0]));
  }

  /** In two's complement the number in front stands for minus one. */
  lemma SignedQuotient(x: int, q: int, w: int, p: int, last: int, negative: bool)
    requires 0 <= last < p && q * p + last == (if negative then p - 1 else 0) * w + x
    ensures q - (if negative then w else 0) == (x - if negative then w else 0) / p
  {
    if negative {
      assert (q - w) * p == q * p - w * p && (p - 1) * w == w * p - w;
      DivUnique(x - w, p, q - w, last);
    } else {
      DivUnique(x, p, q, last);
    }
  }

  // ----- Pairs of words, by up to 63 bits

  /** slq on the low word, then sllq on the high word. */
  function PairLeft(hi: bv32, lo: bv32, b: bv32): seq<bv32> {
    var o := Slq(lo, b);
    [Sllq(hi, b, o.mq).a, o.a]
  }

  /** srq on the high word, then srlq on the low word. */
  function PairRight(hi: bv32, lo: bv32, b: bv32): seq<bv32> {
    var o := Srq(hi, b);
    [o.a, Srlq(lo, b, o.mq).a]
  }

  lemma PairNumber(hi: bv32, lo: bv32)
    ensures Number([hi, lo]) == Val(hi) * WORD + Val(lo) && WordPow(2) == WORD * WORD
  {
    hide Val;
    assert [hi, lo][..1] == [hi];
    assert [hi][..0] == [];
    assert Number([hi]) == Val(hi);
    assert WordPow(2) == WORD * WordPow(1);
  }

  /** The whole shift amount, up to 63. */
  function Amount64(b: bv32): (s: bv32)
    ensures s < 64
  {
    b & 0x3F
  }

  lemma WholeAmount(b: bv32)
    ensures Amount64(b) == if Far(b) then 32 + Amount(b) else Amount(b)
  {
  }

  lemma HighMask(s: bv32)
    requires s < 32
    ensures RotMask(s, 31) == 0xFFFF_FFFF >> s
  {
  }

  lemma NearInsert(d: bv32, mq: bv32, s: bv32)
    requires s < 32
    ensures Insert(Rotr(d, s), RotMask(s, 31), mq) == Join(Shr(d, s), High(mq, s))
  {
    HighMask(s);
    RotrLow(d, s);
  }

  lemma SleqsOne(w: bv32, b: bv32, mq: bv32)
    ensures Sleqs([w], b, mq) == [Sleq(w, b, mq).a]
  {
    hide Sleq;
    assert [w][..0] == [];
  }

  lemma SreqsOne(w: bv32, b: bv32, mq: bv32)
    ensures Sreqs([w], b, mq) == [Sreq(w, b, mq).a]
  {
    hide Sreq;
    assert [w][1..] == [];
  }

  /** slq then sllq multiply a 64-bit number by 2^n modulo 2^64, for every n from 0 to 63. */
  lemma PairLeftMultiplies(hi: bv32, lo: bv32, b: bv32)
    ensures Number(PairLeft(hi, lo, b)) == Number([hi, lo]) * Pow2(Amount64(b)) % WordPow(2)
  {
    WholeAmount(b);
    if Far(b) {
      PairLeftFar(hi, lo, b);
    } else {
      PairLeftNear(hi, lo, b);
      LeftChainMultiplies([hi, lo], b);
    }
  }

  lemma PairLeftNear(hi: bv32, lo: bv32, b: bv32)
    requires !Far(b)
    ensures PairLeft(hi, lo, b) == LeftChain([hi, lo], b)
  {
    hide Shl, Rotl, RotMask, Insert, LowBits, Join, Amount, Far;
    InsertBits(hi, Rotl(lo, Amount(b)), Amount(b));
    assert [hi, lo][..1] == [hi];
    SleqsOne(hi, b, Sle(lo, b).mq);
  }

  lemma AboveRotl(d: bv32, s: bv32)
    requires s < 32
    ensures Above(Rotl(d, s), s) == Shl(d, s)
  {
    RotlHigh(d, s);
  }

  lemma PairLeftWords(hi: bv32, lo: bv32, b: bv32)
    requires Far(b)
    ensures PairLeft(hi, lo, b) == [Shl(lo, Amount(b)), 0]
  {
    hide Rotl, Shl, Amount, Far, Above;
    AboveRotl(lo, Amount(b));
  }

  lemma PairLeftFar(hi: bv32, lo: bv32, b: bv32)
    requires Far(b)
    ensures Number(PairLeft(hi, lo, b)) == Number([hi, lo]) * Pow2(32 + Amount(b)) % WordPow(2)
  {
    hide PairLeft, Number, Val, Shl, Rotl, WordPow, Carry, Amount, Far;
    var s := Amount(b);
    PairLeftWords(hi, lo, b);
    PairNumber(hi, lo);
    PairNumber(Shl(lo, s), 0);
    ValHalf(0);
    LeftWord(lo, s);
    PowSum(32, s);
    Pow32();
    WordBound(Shl(lo, s));
    FarProduct(Val(hi), Val(lo), Val(Shl(lo, s)), Carry(Rotl(lo, s), s), Pow2(s));
  }

  lemma FarProduct(hi: nat, lo: nat, a: nat, c: nat, p: nat)
    requires a + c * WORD == lo * p && a < WORD
    ensures (hi * WORD + lo) * (WORD * p) % (WORD * WORD) == a * WORD
  {
    assert hi * WORD * (WORD * p) == WORD * WORD * (hi * p);
    assert lo * (WORD * p) == WORD * (lo * p);
    DivUnique((hi * WORD + lo) * (WORD * p), WORD * WORD, hi * p + c, a * WORD);
  }

  /** srq then srlq divide a 64-bit number by 2^n, for every n from 0 to 63. */
  lemma PairRightDivides(hi: bv32, lo: bv32, b: bv32)
    ensures Number(PairRight(hi, lo, b)) == Number([hi, lo]) / Pow2(Amount64(b))
  {
    WholeAmount(b);
    if Far(b) {
      PairRightFar(hi, lo, b);
    } else {
      PairRightNear(hi, lo, b);
      RightChainDivides([hi, lo], b);
    }
  }

  lemma PairRightNear(hi: bv32, lo: bv32, b: bv32)
    requires !Far(b)
    ensures PairRight(hi, lo, b) == RightChain([hi, lo], b)
  {
    hide Shr, Rotr, RotMask, Insert, High, Join, Amount, Far;
    NearInsert(lo, Rotr(hi, Amount(b)), Amount(b));
    assert [hi, lo][1..] == [lo];
    SreqsOne(lo, b, Sre(hi, b).mq);
  }

  lemma BelowRotr(d: bv32, s: bv32)
    requires s < 32
    ensures Below(Rotr(d, s), s) == Shr(d, s)
  {
    HighMask(s);
    RotrLow(d, s);
  }

  lemma PairRightWords(hi: bv32, lo: bv32, b: bv32)
    requires Far(b)
    ensures PairRight(hi, lo, b) == [0, Shr(hi, Amount(b))]
  {
    hide Rotr, Shr, RotMask, Amount, Far, Below;
    BelowRotr(hi, Amount(b));
  }

  lemma PairRightFar(hi: bv32, lo: bv32, b: bv32)
    requires Far(b)
    ensures Number(PairRight(hi, lo, b)) == Number([hi, lo]) / Pow2(32 + Amount(b))
  {
    hide PairRight, Number, Val, Shr, Rotr, RotMask, LowBits, WordPow, Amount, Far;
    var s := Amount(b);
    PairRightWords(hi, lo, b);
    PairNumber(hi, lo);
    PairNumber(0, Shr(hi, s));
    ValHalf(0);
    ValSplit(hi, s);
    PowSum(32, s);
    Pow32();
    WordBound(lo);
    FarQuotient(Val(hi), Val(lo), Val(Shr(hi, s)), Val(LowBits(hi, s)), Pow2(s));
  }

  lemma FarQuotient(hi: nat, lo: nat, q: nat, r: nat, p: nat)
    requires hi == q * p + r && r < p && lo < WORD
    ensures (hi * WORD + lo) / (WORD * p) == q
  {
    assert q * p * WORD == (WORD * p) * q;
    assert (r + 1) * WORD <= p * WORD;
    DivUnique(hi * WORD + lo, WORD * p, q, r * WORD + lo);
  }
}
