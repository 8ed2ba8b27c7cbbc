/**
 The two Adler-32 checksums of machines/machinefactory.cpp: the plain one, which reduces after every
 byte, and the unrolled one, which reduces every 0x16ABF600 bytes. Both compute the checksum of
 section 8.2 of RFC 1950.
 */
module Adler {
  import opened Words

  // ----- The definition: s1 is one plus all bytes, s2 is the sum of all values of s1

  function S1(bytes: seq<uint8>): (r: nat)
  {
    if bytes == [] then 1 else S1(bytes[..|bytes| - 1]) + bytes[|bytes| - 1]
  }

  function S2(bytes: seq<uint8>): nat {
    if bytes == [] then 0 else S2(bytes[..|bytes| - 1]) + S1(bytes)
  }

  function Adler32Of(bytes: seq<uint8>): uint32 {
    S2(bytes) % 65521 * 0x1_0000 + S1(bytes) % 65521
  }

  lemma Extend(bytes: seq<uint8>, x: uint8)
    ensures S1(bytes + [x]) == S1(bytes) + x && S2(bytes + [x]) == S2(bytes) + S1(bytes) + x
  {
  }

  /** One byte more or less at distance d from the end counts once in the first sum and d times in the second. */
  lemma {:induction false} OneByte(bytes: seq<uint8>, k: nat, v: uint8)
    requires k < |bytes|
    ensures S1(bytes[k := v]) == S1(bytes) + v - bytes[k]
    ensures S2(bytes[k := v]) == S2(bytes) + (|bytes| - k) * (v - bytes[k])
    decreases |bytes|
  {
    var n := |bytes| - 1;
    var changed := bytes[k := v];
    if k < n {
      OneByte(bytes[..n], k, v);
      assert changed[..n] == bytes[..n][k := v];
      Spread(n - k, v - bytes[k]);
    } else {
      assert changed[..n] == bytes[..n];
    }
  }

  lemma Spread(d: int, x: int)
    ensures (d + 1) * x == d * x + x
  {
  }

  lemma {:induction false} ZeroSums(bytes: seq<uint8>)
    requires forall k :: 0 <= k < |bytes| ==> bytes[k] == 0
    ensures S1(bytes) == 1 && S2(bytes) == |bytes|
    decreases |bytes|
  {
    if bytes != [] {
      ZeroSums(bytes[..|bytes| - 1]);
    }
  }

  /** The checksum of zeros: one in the lower half, their number in the upper. */
  lemma AdlerOfZeros(bytes: seq<uint8>)
    requires forall k :: 0 <= k < |bytes| ==> bytes[k] == 0
    ensures Adler32Of(bytes) == |bytes| % 65521 * 0x1_0000 + 1
  {
    ZeroSums(bytes);
  }

  /**
   Changing a byte changes the lower half by the difference, and the upper half by the difference times
   the distance of the byte from the end, both modulo 65521. So the checksum is that of zeros plus what
   each byte adds.
   */
  lemma AdlerOneByte(bytes: seq<uint8>, k: nat, v: uint8)
    requires k < |bytes|
    ensures var a, c := Adler32Of(bytes), Adler32Of(bytes[k := v]);
            && c % 0x1_0000 == (a % 0x1_0000 + v - bytes[k]) % 65521
            && c / 0x1_0000 == (a / 0x1_0000 + (|bytes| - k) * (v - bytes[k])) % 65521
  {
    hide S1, S2;
    OneByte(bytes, k, v);
    SumHalves(S1(bytes), S2(bytes));
    SumHalves(S1(bytes[k := v]), S2(bytes[k := v]));
    RemainderOfSum(S1(bytes), v - bytes[k]);
    RemainderOfSum(S2(bytes), (|bytes| - k) * (v - bytes[k]));
  }

  lemma SumHalves(s1: nat, s2: nat)
    ensures var a := s2 % 65521 * 0x1_0000 + s1 % 65521;
            a % 0x1_0000 == s1 % 65521 && a / 0x1_0000 == s2 % 65521
  {
  }

  lemma RemainderOfSum(x: int, d: int)
    ensures (x + d) % 65521 == (x % 65521 + d) % 65521
  {
  }

  // ----- How far the sums can grow before they are reduced

  const NMAX := 0x16ABF600

  /** Both sums after `m` bytes that follow a reduction. */
  ghost predicate Within(sum1: int, sum2: int, m: nat) {
    0 <= sum1 <= 65520 + 255 * m && 0 <= sum2 && 2 * sum2 <= Cap(m)
  }

  /** Twice the largest value of the second sum. */
  function Cap(m: nat): int { 131040 * (m + 1) + 255 * m * (m + 1) }

  lemma CapGrows(m: nat, n: nat)
    requires m <= n
    ensures Cap(m) <= Cap(n)
  {
  }

  /** At the longest distance between reductions neither sum reaches 2^64. */
  lemma NoOverflow(sum1: int, sum2: int, m: nat)
    requires Within(sum1, sum2, m) && m <= NMAX
    ensures sum1 < TWO_64 && sum2 < TWO_64
  {
    CapGrows(m, NMAX);
    assert Cap(NMAX) < 2 * TWO_64;
  }

  lemma WithinStep(sum1: int, sum2: int, m: nat, x: uint8)
    requires Within(sum1, sum2, m)
    ensures Within(sum1 + x, sum2 + sum1 + x, m + 1)
  {
  }

  // ----- The unrolled checksum

  /** The sums of the bytes so far, reduced or not, with `m` bytes since the last reduction. */
  ghost predicate Sums(sum1: int, sum2: int, bytes: seq<uint8>, m: nat) {
    Within(sum1, sum2, m) && sum1 % 65521 == S1(bytes) % 65521 && sum2 % 65521 == S2(bytes) % 65521
  }

  lemma SameRemainder(a: int, b: int, c: int, d: int)
    requires a % 65521 == b % 65521 && c % 65521 == d % 65521
    ensures (a + c) % 65521 == (b + d) % 65521
  {
  }

  lemma SumsStep(s1: int, s2: int, bytes: seq<uint8>, m: nat, x: uint8)
    requires Sums(s1, s2, bytes, m) && m < NMAX
    ensures Sums(s1 + x, s2 + (s1 + x), bytes + [x], m + 1)
    ensures 0 <= s1 + x < TWO_64 && 0 <= s2 + (s1 + x) < TWO_64
  {
    hide S1, S2, Cap;
    WithinStep(s1, s2, m, x);
    NoOverflow(s1 + x, s2 + s1 + x, m + 1);
    Extend(bytes, x);
    SameRemainder(s1, S1(bytes), x, x);
    SameRemainder(s2, S2(bytes), s1 + x, S1(bytes) + x);
  }

  /** One byte on 64-bit accumulators; the wrap-around never happens. */
  method Do1(buf: array<uint8>, p: nat, i: nat, s1: uint64, s2: uint64, ghost start: nat, ghost m: nat)
    returns (sum1: uint64, sum2: uint64)
    requires start <= p && p + i < buf.Length && m < NMAX
    requires Sums(s1, s2, buf[start..p + i], m)
    ensures Sums(sum1, sum2, buf[start..p + i + 1], m + 1)
  {
    hide Sums;
    var x := buf[p + i];
    SumsStep(s1, s2, buf[start..p + i], m, x);
    assert buf[start..p + i] + [x] == buf[start..p + i + 1];
    sum1 := Wrap64(s1 + x);
    sum2 := Wrap64(s2 + sum1);
  }

  method Do2(buf: array<uint8>, p: nat, i: nat, s1: uint64, s2: uint64, ghost start: nat, ghost m: nat)
    returns (sum1: uint64, sum2: uint64)
    requires start <= p && p + i + 2 <= buf.Length && m + 2 <= NMAX
    requires Sums(s1, s2, buf[start..p + i], m)
    ensures Sums(sum1, sum2, buf[start..p + i + 2], m + 2)
  {
    hide Sums;
    sum1, sum2 := Do1(buf, p, i, s1, s2, start, m);
    sum1, sum2 := Do1(buf, p, i + 1, sum1, sum2, start, m + 1);
  }

  method Do4(buf: array<uint8>, p: nat, i: nat, s1: uint64, s2: uint64, ghost start: nat, ghost m: nat)
    returns (sum1: uint64, sum2: uint64)
    requires start <= p && p + i + 4 <= buf.Length && m + 4 <= NMAX
    requires Sums(s1, s2, buf[start..p + i], m)
    ensures Sums(sum1, sum2, buf[start..p + i + 4], m + 4)
  {
    hide Sums;
    sum1, sum2 := Do2(buf, p, i, s1, s2, start, m);
    sum1, sum2 := Do2(buf, p, i + 2, sum1, sum2, start, m + 2);
  }

  method Do8(buf: array<uint8>, p: nat, i: nat, s1: uint64, s2: uint64, ghost start: nat, ghost m: nat)
    returns (sum1: uint64, sum2: uint64)
    requires start <= p && p + i + 8 <= buf.Length && m + 8 <= NMAX
    requires Sums(s1, s2, buf[start..p + i], m)
    ensures Sums(sum1, sum2, buf[start..p + i + 8], m + 8)
  {
    hide Sums;
    sum1, sum2 := Do4(buf, p, i, s1, s2, start, m);
    sum1, sum2 := Do4(buf, p, i + 4, sum1, sum2, start, m + 4);
  }

  method Do16(buf: array<uint8>, p: nat, s1: uint64, s2: uint64, ghost start: nat, ghost m: nat)
    returns (sum1: uint64, sum2: uint64)
    requires start <= p && p + 16 <= buf.Length && m + 16 <= NMAX
    requires Sums(s1, s2, buf[start..p], m)
    ensures Sums(sum1, sum2, buf[start..p + 16], m + 16)
  {
    hide Sums;
    sum1, sum2 := Do8(buf, p, 0, s1, s2, start, m);
    sum1, sum2 := Do8(buf, p, 8, sum1, sum2, start, m + 8);
  }

  lemma StartSums()
    ensures Sums(1, 0, [], 0)
  {
  }

  lemma Reduced(sum1: uint64, sum2: uint64, bytes: seq<uint8>, m: nat)
    requires Sums(sum1, sum2, bytes, m)
    ensures Sums(sum1 % 65521, sum2 % 65521, bytes, 0)
  {
  }

  method Adler32(buf: array<uint8>, start: nat, length: nat) returns (r: uint32)
    requires start + length <= buf.Length
    ensures r == Adler32Of(buf[start..start + length])
  {
    hide Sums, S1, S2;
    var sum1: uint64, sum2: uint64 := 1, 0;
    var len, p := length, start;
    StartSums();
    assert buf[start..p] == [];
    while len >= NMAX
      invariant p + len == start + length && p >= start && len >= 0
      invariant Sums(sum1, sum2, buf[start..p], 0)
    {
      len := len - NMAX;
      var n := NMAX / 16;
      ghost var m := 0;
      while n > 0
        invariant n >= 0 && m + 16 * n == NMAX && p + 16 * n + len == start + length && p >= start
        invariant Sums(sum1, sum2, buf[start..p], m)
      {
        sum1, sum2 := Do16(buf, p, sum1, sum2, start, m);
        p := p + 16;
        n := n - 1;
        m := m + 16;
      }
      Reduced(sum1, sum2, buf[start..p], m);
      sum1, sum2 := sum1 % 65521, sum2 % 65521;
    }
    ghost var m := 0;
    while len >= 16
      invariant p + len == start + length && p >= start && len >= 0 && m + len < NMAX
      invariant Sums(sum1, sum2, buf[start..p], m)
    {
      len := len - 16;
      sum1, sum2 := Do16(buf, p, sum1, sum2, start, m);
      p := p + 16;
      m := m + 16;
    }
    while len > 0
      invariant p + len == start + length && p >= start && len >= 0 && m + len < NMAX
      invariant Sums(sum1, sum2, buf[start..p], m)
    {
      len := len - 1;
      sum1, sum2 := Do1(buf, p, 0, sum1, sum2, start, m);
      p := p + 1;
      m := m + 1;
    }
    r := Final(sum1 % 65521, sum2 % 65521);
    FinalSums(sum1, sum2, buf[start..p], m);
  }

  /** The two sums side by side: the bits do not overlap. */
  function Final(sum1: nat, sum2: nat): uint32
    requires sum1 < 65521 && sum2 < 65521
  {
    sum2 * 0x1_0000 + sum1
  }

  lemma FinalSums(sum1: uint64, sum2: uint64, bytes: seq<uint8>, m: nat)
    requires Sums(sum1, sum2, bytes, m)
    ensures Final(sum1 % 65521, sum2 % 65521) == Adler32Of(bytes)
  {
  }

  // ----- The plain checksum

  /** One byte of the plain checksum. */
  lemma SlowStep(sum1: nat, sum2: nat, bytes: seq<uint8>, x: uint8)
    requires sum1 == S1(bytes) % 65521 && sum2 == S2(bytes) % 65521
    ensures var next := (sum1 + x) % 65521;
            next == S1(bytes + [x]) % 65521 && (sum2 + next) % 65521 == S2(bytes + [x]) % 65521
  {
    hide S1, S2;
    Extend(bytes, x);
    SameRemainder(sum1, S1(bytes), x, x);
    SameRemainder(sum2, S2(bytes), (sum1 + x) % 65521, S1(bytes) + x);
  }

  method Adler32Slow(buf: array<uint8>, start: nat, len: nat) returns (r: uint32)
    requires start + len <= buf.Length
    ensures r == Adler32Of(buf[start..start + len])
  {
    hide S1, S2;
    var sum1: uint32, sum2: uint32 := 1, 0;
    var i := 0;
    assert buf[start..start] == [];
    StartSums();
    while i < len
      invariant i <= len
      invariant sum1 == S1(buf[start..start + i]) % 65521 && sum2 == S2(buf[start..start + i]) % 65521
    {
      SlowStep(sum1, sum2, buf[start..start + i], buf[start + i]);
      assert buf[start..start + i] + [buf[start + i]] == buf[start..start + (i + 1)];
      sum1 := Wrap32(sum1 + buf[start + i]) % 65521;
      sum2 := Wrap32(sum2 + sum1) % 65521;
      i := i + 1;
    }
    r := Wrap32(sum1 + 65536 * sum2);
  }
}
