/**
 What lscbx (load string and compare byte indexed) of cpu/ppc/poweropcodes.cpp loads, and where it
 puts it. Memory is a total map from addresses to bytes; addresses wrap around at 32 bits.
 */
module StringLoad {
  import opened BitWords
  import opened PowerRegisters

  type Memory = bv32 -> bv8

  /** XER holds the number of bytes in its low 7 bits and the byte to look for in bits 8 to 15. */
  function ByteCount(xer: bv32): bv32 { xer & 0x7F }
  function MatchByte(xer: bv32): bv8 { ((xer >> 8) & 0xFF) as bv8 }
  function WithCount(xer: bv32, n: bv32): bv32 { (xer & !0x7F) | n }

  /** CR with field 0 set from a comparison, and with XER[SO] copied into it. */
  function Compared(cr: bv32, xer: bv32, equal: bool): bv32 {
    (cr & 0x0FFF_FFFF) | (if equal then CR_EQ else 0) | ((xer & SO) >> 3)
  }

  /** EQ alone says whether the comparison found something; SO is copied and the other fields of CR stay. */
  lemma ComparedBits(cr: bv32, xer: bv32, equal: bool)
    ensures Compared(cr, xer, equal) & CR_EQ != 0 <==> equal
    ensures Compared(cr, xer, equal) & CR_LT == 0 && Compared(cr, xer, equal) & CR_GT == 0
    ensures Compared(cr, xer, equal) & CR_SO != 0 <==> xer & SO != 0
    ensures Compared(cr, xer, equal) & 0x0FFF_FFFF == cr & 0x0FFF_FFFF
  {
  }

  function Next(ea: bv32): bv32 { ea + 1 }

  function Pred(n: bv32): (r: bv32)
    requires n != 0
    ensures r < n
  {
    n - 1
  }

  function Plus(x: bv32, y: bv32): bv32 { x + y }

  function Address(a: Reg, ra: bv32, rb: bv32): bv32 {
    Plus(rb, if a != 0 then ra else 0)
  }

  /** The bytes loaded: at most `n`, and none after the first that equals `key`. */
  function Loaded(mem: Memory, ea: bv32, n: bv32, key: bv8): seq<bv8>
    decreases n
  {
    if n == 0 then []
    else if mem(ea) == key then [mem(ea)]
    else [mem(ea)] + Loaded(mem, Next(ea), Pred(n), key)
  }

  lemma LoadMore(bytes: seq<bv8>, mem: Memory, ea: bv32, n: bv32, key: bv8)
    requires n != 0
    ensures var more := bytes + [mem(ea)];
            bytes + Loaded(mem, ea, n, key) == if mem(ea) == key then more else more + Loaded(mem, Next(ea), Pred(n), key)
  {
    if mem(ea) != key {
      assert bytes + ([mem(ea)] + Loaded(mem, Next(ea), Pred(n), key)) == bytes + [mem(ea)] + Loaded(mem, Next(ea), Pred(n), key);
    }
  }

  lemma LoadNone(bytes: seq<bv8>, mem: Memory, ea: bv32, key: bv8)
    ensures bytes + Loaded(mem, ea, 0, key) == bytes
  {
  }

  /** The byte at distance `k`. */
  function ByteAfter(mem: Memory, ea: bv32, k: nat): bv8
    decreases k
  {
    if k == 0 then mem(ea) else ByteAfter(mem, Next(ea), k - 1)
  }

  // ----- Counting

  lemma PredOdd(x: bv32)
    requires x != 0 && Odd(x)
    ensures Shr(Pred(x), 1) == Shr(x, 1) && !Odd(Pred(x))
  {
  }

  lemma PredEven(x: bv32)
    requires x != 0 && !Odd(x)
    ensures Shr(x, 1) != 0 && Shr(Pred(x), 1) == Pred(Shr(x, 1)) && Odd(Pred(x))
  {
  }

  lemma {:induction false} ValPred(x: bv32)
    requires x != 0
    ensures Val(Pred(x)) == Val(x) - 1
    decreases Val(x)
  {
    hide Shr, Odd, Val, Pred;
    ValHalf(x);
    ValHalf(Pred(x));
    if Odd(x) {
      PredOdd(x);
    } else {
      PredEven(x);
      ValPositive(x);
      ValPred(Shr(x, 1));
    }
  }

  /** The number of bytes loaded when `left` of `n` remain. */
  function Done(n: bv32, left: bv32): bv32 { n - left }

  lemma DoneStep(n: bv32, left: bv32)
    requires 0 < left <= n <= 0x7F
    ensures Pred(left) <= n && Done(n, Pred(left)) != 0 && Pred(Done(n, Pred(left))) == Done(n, left)
  {
  }

  /** `done` of `n` bytes are loaded and `left` remain. */
  ghost predicate Counting(n: bv32, left: bv32, done: nat) {
    left <= n <= 0x7F && Val(Done(n, left)) == done && done + Val(left) == Val(n) < 128
  }

  lemma StartCount(n: bv32)
    requires n <= 0x7F && Val(n) < 128
    ensures Counting(n, n, 0)
  {
    hide Val, Done;
    DoneBounds(n, n);
    ValHalf(0);
  }

  lemma CountOne(n: bv32, left: bv32, done: nat)
    requires Counting(n, left, done) && left != 0
    ensures Counting(n, Pred(left), done + 1) && done + 1 < 128
    ensures Val(Pred(left)) < Val(left)
  {
    hide Val, Pred, Done;
    DoneStep(n, left);
    ValPred(left);
    ValPred(Done(n, Pred(left)));
    ValPositive(left);
  }

  lemma DoneBounds(n: bv32, left: bv32)
    requires left <= n <= 0x7F
    ensures Done(n, left) <= 0x7F && Done(n, n) == 0
  {
  }

  lemma CountBits(xer: bv32)
    ensures ByteCount(xer) == LowBits(xer, 7) && ByteCount(xer) <= 0x7F
  {
  }

  lemma CountBound(xer: bv32)
    ensures Val(ByteCount(xer)) < 128
  {
    hide Val, LowBits, ByteCount;
    CountBits(xer);
    ValLow(xer, 7);
    assert Pow2(4) == 16;
  }

  lemma CountKept(xer: bv32, n: bv32)
    requires n <= 0x7F
    ensures ByteCount(WithCount(xer, n)) == n
  {
  }

  lemma OthersLeft(xer: bv32, n: bv32)
    requires n <= 0x7F
    ensures Shr(WithCount(xer, n), 7) == Shr(xer, 7)
  {
  }

  // ----- What is loaded

  /** There is a match among the first `n` bytes exactly when the load ends with the key. */
  ghost predicate Found(mem: Memory, ea: bv32, n: bv32, key: bv8) {
    exists k: nat :: k < Val(n) && ByteAfter(mem, ea, k) == key
  }

  lemma {:induction false} LoadedBytes(mem: Memory, ea: bv32, n: bv32, key: bv8, k: nat)
    requires k < |Loaded(mem, ea, n, key)|
    ensures Loaded(mem, ea, n, key)[k] == ByteAfter(mem, ea, k)
    ensures k + 1 < |Loaded(mem, ea, n, key)| ==> ByteAfter(mem, ea, k) != key
    decreases n
  {
    if k > 0 {
      LoadedBytes(mem, Next(ea), Pred(n), key, k - 1);
    }
  }

  lemma {:induction false} LoadedCount(mem: Memory, ea: bv32, n: bv32, key: bv8)
    ensures |Loaded(mem, ea, n, key)| <= Val(n)
    ensures |Loaded(mem, ea, n, key)| == Val(n) || (Loaded(mem, ea, n, key) != [] && Loaded(mem, ea, n, key)[|Loaded(mem, ea, n, key)| - 1] == key)
    decreases n
  {
    hide Val, Pred, Next;
    if n == 0 {
      ValHalf(0);
    } else {
      ValPred(n);
      ValPositive(n);
      if mem(ea) != key {
        LoadedCount(mem, Next(ea), Pred(n), key);
      }
    }
  }

  /** The load stops after the first match, or after `n` bytes when there is none. */
  lemma StopsAtFirstMatch(mem: Memory, ea: bv32, n: bv32, key: bv8)
    ensures var bytes := Loaded(mem, ea, n, key);
            && (!Found(mem, ea, n, key) ==> |bytes| == Val(n))
            && (Found(mem, ea, n, key) <==> bytes != [] && bytes[|bytes| - 1] == key)
            && (Found(mem, ea, n, key) ==> |bytes| - 1 < Val(n) && ByteAfter(mem, ea, |bytes| - 1) == key)
            && forall k :: 0 <= k < |bytes| - 1 ==> ByteAfter(mem, ea, k) != key
  {
    hide Val, Loaded, ByteAfter;
    var bytes := Loaded(mem, ea, n, key);
    LoadedCount(mem, ea, n, key);
    forall k | 0 <= k < |bytes|
      ensures bytes[k] == ByteAfter(mem, ea, k) && (k + 1 < |bytes| ==> ByteAfter(mem, ea, k) != key)
    {
      LoadedBytes(mem, ea, n, key, k);
    }
    if Found(mem, ea, n, key) {
      var k: nat :| k < Val(n) && ByteAfter(mem, ea, k) == key;
      assert |bytes| == Val(n) ==> k == |bytes| - 1;
    }
  }

  // ----- Where it goes

  /** Byte `i` of a word, counted from the most significant. */
  function Placed(x: bv8, i: nat): bv32
    requires i < 4
  {
    match i
    case 0 => (x as bv32) << 24
    case 1 => (x as bv32) << 16
    case 2 => (x as bv32) << 8
    case 3 => x as bv32
  }

  /** Up to four bytes in a word, the rest of it zero. */
  function Packed(bytes: seq<bv8>): bv32
    requires |bytes| <= 4
  {
    if bytes == [] then 0 else Join(Packed(bytes[..|bytes| - 1]), Placed(bytes[|bytes| - 1], |bytes| - 1))
  }

  /** The group of four bytes that register `r` takes when loading starts at register `d`. */
  function Slot(d: Reg, r: Reg): Reg { (r - d + 32) % 32 }

  function Group(bytes: seq<bv8>, k: nat): (g: seq<bv8>)
    requires 4 * k <= |bytes|
    ensures |g| <= 4
  {
    bytes[4 * k..if 4 * k + 4 <= |bytes| then 4 * k + 4 else |bytes|]
  }

  /** Register `r` after the load: rA and rB are never written. */
  function RegAfter(gpr: seq<bv32>, d: Reg, a: Reg, b: Reg, bytes: seq<bv8>, r: Reg): bv32
    requires |gpr| == 32
  {
    if r != a && r != b && 4 * Slot(d, r) < |bytes| then Packed(Group(bytes, Slot(d, r))) else gpr[r]
  }

  function WithLoaded(gpr: seq<bv32>, d: Reg, a: Reg, b: Reg, bytes: seq<bv8>): (r: seq<bv32>)
    requires |gpr| == 32
    ensures |r| == 32
  {
    seq(32, i requires 0 <= i < 32 => RegAfter(gpr, d, a, b, bytes, i))
  }

  /** Storing the last, possibly partial, group completes the registers. */
  lemma LastGroup(gpr: seq<bv32>, d: Reg, a: Reg, b: Reg, bytes: seq<bv8>, k: Reg)
    requires |gpr| == 32 && 4 * k < |bytes| <= 4 * k + 4
    ensures var prev := WithLoaded(gpr, d, a, b, bytes[..4 * k]);
            var r := (d + k) % 32;
            WithLoaded(gpr, d, a, b, bytes) == if r != a && r != b then prev[r := Packed(bytes[4 * k..])] else prev
  {
    hide Packed, Slot;
    var prev := WithLoaded(gpr, d, a, b, bytes[..4 * k]);
    SlotInverse(d, k);
    forall r: Reg
      ensures WithLoaded(gpr, d, a, b, bytes)[r] == if r == (d + k) % 32 && r != a && r != b then Packed(bytes[4 * k..]) else prev[r]
    {
      SlotInverse(d, r);
      if Slot(d, r) == k {
        assert Group(bytes, k) == bytes[4 * k..];
      } else if Slot(d, r) < k {
        assert Group(bytes, Slot(d, r)) == Group(bytes[..4 * k], Slot(d, r));
      }
    }
  }

  lemma NothingLoaded(gpr: seq<bv32>, d: Reg, a: Reg, b: Reg)
    requires |gpr| == 32
    ensures WithLoaded(gpr, d, a, b, []) == gpr && Packed([]) == 0
  {
  }

  /** One more byte for the group that is being filled. */
  lemma OneMore(bytes: seq<bv8>, x: bv8, k: nat)
    requires 4 * k <= |bytes| < 4 * k + 4
    ensures (bytes + [x])[..4 * k] == bytes[..4 * k]
    ensures Packed((bytes + [x])[4 * k..]) == Join(Packed(bytes[4 * k..]), Placed(x, |bytes| - 4 * k))
  {
    hide Join, Placed;
    var g := (bytes + [x])[4 * k..];
    assert g[..|g| - 1] == bytes[4 * k..];
  }

  /** Each group of bytes has a register of its own. */
  lemma SlotInverse(d: Reg, k: Reg)
    ensures Slot(d, (d + k) % 32) == k
    ensures (d + Slot(d, k)) % 32 == k
  {
  }

  lemma NextRegister(d: Reg, k: nat)
    ensures ((d + k) % 32 + 1) % 32 == (d + (k + 1)) % 32
  {
  }

  function ByteOf(w: bv32, i: nat): bv8
    requires i < 4
  {
    match i
    case 0 => (w >> 24) as bv8
    case 1 => ((w >> 16) & 0xFF) as bv8
    case 2 => ((w >> 8) & 0xFF) as bv8
    case 3 => (w & 0xFF) as bv8
  }

  function Or(x: bv8, y: bv8): bv8 { x | y }

  lemma PlacedByte0(w: bv32, x: bv8)
    ensures ByteOf(Join(w, Placed(x, 0)), 0) == Or(ByteOf(w, 0), x)
    ensures ByteOf(Join(w, Placed(x, 0)), 1) == ByteOf(w, 1)
    ensures ByteOf(Join(w, Placed(x, 0)), 2) == ByteOf(w, 2)
    ensures ByteOf(Join(w, Placed(x, 0)), 3) == ByteOf(w, 3)
  {
  }

  lemma PlacedByte1(w: bv32, x: bv8)
    ensures ByteOf(Join(w, Placed(x, 1)), 0) == ByteOf(w, 0)
    ensures ByteOf(Join(w, Placed(x, 1)), 1) == Or(ByteOf(w, 1), x)
    ensures ByteOf(Join(w, Placed(x, 1)), 2) == ByteOf(w, 2)
    ensures ByteOf(Join(w, Placed(x, 1)), 3) == ByteOf(w, 3)
  {
  }

  lemma PlacedByte2(w: bv32, x: bv8)
    ensures ByteOf(Join(w, Placed(x, 2)), 0) == ByteOf(w, 0)
    ensures ByteOf(Join(w, Placed(x, 2)), 1) == ByteOf(w, 1)
    ensures ByteOf(Join(w, Placed(x, 2)), 2) == Or(ByteOf(w, 2), x)
    ensures ByteOf(Join(w, Placed(x, 2)), 3) == ByteOf(w, 3)
  {
  }

  lemma PlacedByte3(w: bv32, x: bv8)
    ensures ByteOf(Join(w, Placed(x, 3)), 0) == ByteOf(w, 0)
    ensures ByteOf(Join(w, Placed(x, 3)), 1) == ByteOf(w, 1)
    ensures ByteOf(Join(w, Placed(x, 3)), 2) == ByteOf(w, 2)
    ensures ByteOf(Join(w, Placed(x, 3)), 3) == Or(ByteOf(w, 3), x)
  {
  }

  lemma ByteOfZero(j: nat, x: bv8)
    requires j < 4
    ensures ByteOf(0, j) == 0 && Or(0, x) == x
  {
  }

  lemma PlacedByte(w: bv32, x: bv8, i: nat, j: nat)
    requires i < 4 && j < 4
    ensures ByteOf(Join(w, Placed(x, i)), j) == if i == j then Or(ByteOf(w, j), x) else ByteOf(w, j)
  {
    hide Placed, ByteOf, Join, Or;
    match i
    case 0 => PlacedByte0(w, x);
    case 1 => PlacedByte1(w, x);
    case 2 => PlacedByte2(w, x);
    case 3 => PlacedByte3(w, x);
  }

  /** The bytes of a register are the loaded bytes in order, then zeros. */
  lemma {:induction false} PackedBytes(bytes: seq<bv8>, j: nat)
    requires |bytes| <= 4 && j < 4
    ensures ByteOf(Packed(bytes), j) == if j < |bytes| then bytes[j] else 0
    decreases |bytes|
  {
    hide Placed, ByteOf, Join, Or;
    if bytes == [] {
      ByteOfZero(j, 0);
    } else {
      var init, x := bytes[..|bytes| - 1], bytes[|bytes| - 1];
      PackedBytes(init, j);
      PlacedByte(Packed(init), x, |bytes| - 1, j);
      ByteOfZero(j, x);
    }
  }
}
