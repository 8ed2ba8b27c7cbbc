/**
 Which byte of memory lscbx puts into which byte of which register, and how many there are, in
 terms of the instruction's operands.
 */
module LscbxBytes {
  import opened BitWords
  import opened PowerRegisters
  import opened StringLoad

  // ----- Addition of words

  lemma PlusStep(x: bv32, y: bv32)
    requires y != 0
    ensures Plus(x, y) == Plus(Next(x), Pred(y)) && Plus(x, 0) == x
  {
  }

  lemma PlusNone(x: bv32)
    ensures Plus(x, 0) == x
  {
  }

  lemma NextPred(x: bv32)
    ensures Next(x) != 0 ==> Pred(Next(x)) == x
    ensures Next(x) == 0 ==> x == 0xFFFF_FFFF
  {
  }

  lemma {:induction false} OnesVal(s: bv32)
    requires s <= 32
    ensures Val(Low(s)) == Pow2(s) - 1
    decreases s
  {
    hide Shr, Odd, Val;
    ValHalf(Low(s));
    if s != 0 {
      OnesStep(s);
      OnesVal(s - 1);
    } else {
      ValHalf(0);
    }
  }

  lemma OnesStep(s: bv32)
    requires 0 < s <= 32
    ensures Shr(Low(s), 1) == Low(s - 1) && Odd(Low(s)) && s - 1 <= 32
  {
  }

  lemma ValNext(x: bv32)
    ensures Val(Next(x)) == (Val(x) + 1) % 0x1_0000_0000
  {
    hide Val, Next, Pred, Pow2, Low;
    NextPred(x);
    WordBound(Next(x));
    if Next(x) == 0 {
      ValHalf(0);
      OnesVal(32);
      AllOnes();
      Pow32();
    } else {
      ValPred(Next(x));
    }
  }

  lemma AllOnes()
    ensures Low(32) == 0xFFFF_FFFF
  {
  }

  /** Words add up modulo 2^32. */
  lemma {:induction false} ValPlus(x: bv32, y: bv32)
    ensures Val(Plus(x, y)) == (Val(x) + Val(y)) % 0x1_0000_0000
    decreases Val(y)
  {
    hide Val, Plus, Next, Pred;
    if y == 0 {
      ValHalf(0);
      PlusNone(x);
      WordBound(x);
    } else {
      PlusStep(x, y);
      ValPred(y);
      ValNext(x);
      ValPositive(y);
      ValPlus(Next(x), Pred(y));
      OneOver(Val(x), Val(y));
    }
  }

  lemma OneOver(x: nat, y: nat)
    requires y > 0
    ensures ((x + 1) % 0x1_0000_0000 + (y - 1)) % 0x1_0000_0000 == (x + y) % 0x1_0000_0000
  {
  }

  // ----- The operands

  /** The address is rB plus rA, without rA when that is register 0. */
  lemma AddressIs(a: Reg, ra: bv32, rb: bv32)
    ensures Val(Address(a, ra, rb)) == (Val(rb) + if a == 0 then 0 else Val(ra)) % 0x1_0000_0000
  {
    hide Val, Plus;
    ValPlus(rb, if a == 0 then 0 else ra);
    ValHalf(0);
  }

  /** The number of bytes is XER modulo 128, and the byte to look for is the third of XER. */
  lemma CountAndKey(xer: bv32)
    ensures Val(ByteCount(xer)) == Val(xer) % 128 && MatchByte(xer) == ByteOf(xer, 2)
  {
    hide Val, LowBits, ByteCount;
    CountBits(xer);
    ValLow(xer, 7);
    assert Pow2(7) == 128;
    KeyByte(xer);
  }

  lemma KeyByte(xer: bv32)
    ensures MatchByte(xer) == ByteOf(xer, 2)
  {
  }

  // ----- The bytes

  /** The byte at distance `k` is the one at the address `k` higher, modulo 2^32. */
  lemma {:induction false} ByteAfterIs(mem: Memory, ea: bv32, k: bv32)
    ensures ByteAfter(mem, ea, Val(k)) == mem(Plus(ea, k))
    decreases Val(k)
  {
    hide Val, Plus, Next, Pred;
    if k == 0 {
      ValHalf(0);
      PlusNone(ea);
    } else {
      ValPred(k);
      ValPositive(k);
      PlusStep(ea, k);
      ByteAfterIs(mem, Next(ea), Pred(k));
    }
  }

  /** The bytes that are loaded are those in memory from the address on. */
  lemma LoadedAt(mem: Memory, ea: bv32, n: bv32, key: bv8, k: bv32)
    requires Val(k) < |Loaded(mem, ea, n, key)|
    ensures Loaded(mem, ea, n, key)[Val(k)] == mem(Plus(ea, k))
  {
    hide Val, Plus, Loaded, ByteAfter;
    LoadedBytes(mem, ea, n, key, Val(k));
    ByteAfterIs(mem, ea, k);
  }

  /** There are `n` of them, or as many as it takes to reach the first that is the key. */
  lemma LoadedUntil(mem: Memory, ea: bv32, n: bv32, key: bv8, k: bv32)
    requires Val(k) < Val(n) && mem(Plus(ea, k)) == key
    requires forall j: bv32 :: Val(j) < Val(k) ==> mem(Plus(ea, j)) != key
    ensures |Loaded(mem, ea, n, key)| == Val(k) + 1 && Found(mem, ea, n, key)
  {
    hide Val, Plus, Loaded, ByteAfter;
    StopsAtFirstMatch(mem, ea, n, key);
    ByteAfterIs(mem, ea, k);
    assert Found(mem, ea, n, key);
    var bytes := Loaded(mem, ea, n, key);
    var j := WordOf(|bytes| - 1, n);
    ByteAfterIs(mem, ea, j);
  }

  lemma LoadedAll(mem: Memory, ea: bv32, n: bv32, key: bv8)
    requires forall j: bv32 :: Val(j) < Val(n) ==> mem(Plus(ea, j)) != key
    ensures |Loaded(mem, ea, n, key)| == Val(n) && !Found(mem, ea, n, key)
  {
    hide Val, Plus, Loaded, ByteAfter;
    StopsAtFirstMatch(mem, ea, n, key);
    if Found(mem, ea, n, key) {
      var k := |Loaded(mem, ea, n, key)| - 1;
      var j := WordOf(k, n);
      ByteAfterIs(mem, ea, j);
    }
  }

  /** The word of a number below that of `n`. */
  lemma {:induction false} WordOf(k: nat, n: bv32) returns (j: bv32)
    requires k <= Val(n)
    ensures Val(j) == k
    decreases Val(n)
  {
    hide Val, Pred;
    if k == Val(n) {
      j := n;
    } else {
      if n == 0 {
        ValHalf(0);
      }
      ValPred(n);
      j := WordOf(k, Pred(n));
    }
  }

  /**
   Byte `j` of register `r` after the load into the registers from `d` on: register d + i, modulo 32,
   takes bytes 4i to 4i + 3, and zeros behind the last; rA, rB and registers that are not reached stay.
   */
  lemma RegisterByte(gpr: seq<bv32>, d: Reg, a: Reg, b: Reg, mem: Memory, ea: bv32, n: bv32, key: bv8, i: Reg, j: nat, k: bv32)
    requires |gpr| == 32 && j < 4 && Val(k) == 4 * i + j
    ensures var bytes := Loaded(mem, ea, n, key);
            var r, after := (d + i) % 32, WithLoaded(gpr, d, a, b, bytes);
            if r == a || r == b || |bytes| <= 4 * i then after[r] == gpr[r]
            else ByteOf(after[r], j) == if Val(k) < |bytes| then mem(Plus(ea, k)) else 0
  {
    hide Val, Plus, Loaded, Packed, ByteOf;
    var bytes := Loaded(mem, ea, n, key);
    SlotInverse(d, i);
    if |bytes| > 4 * i {
      PackedBytes(Group(bytes, i), j);
      if Val(k) < |bytes| {
        LoadedAt(mem, ea, n, key, k);
      }
    }
  }
}
