/** The wide multiplications of core/mathutils.h, on wrapping 32-bit and 64-bit arithmetic. */
module MathUtils {
  import opened Words

  function Low32(x: uint64): uint32 { x % 0x1_0000_0000 }
  function High32(x: uint64): uint32 { x / 0x1_0000_0000 }

  /** 1 if the comparison holds, as the language converts it. */
  function Bit(b: bool): nat { if b then 1 else 0 }

  lemma ProductBound(x: nat, y: nat, m: nat)
    requires x <= m && y <= m
    ensures 0 <= x * y <= m * m
  {
  }

  lemma Halves(a: int, x: uint64)
    ensures a * x == a * Low32(x) + a * High32(x) * 0x1_0000_0000
  {
  }

  /** The overload with a 32-bit high part. */
  function U32xU64(a: uint32, b: uint64): (r: (uint32, uint64))
    ensures r.0 * TWO_64 + r.1 == a * b
  {
    ProductBound(a, Low32(b), 0xFFFF_FFFF);
    ProductBound(a, High32(b), 0xFFFF_FFFF);
    Halves(a, b);
    var p0 := Wrap64(Low32(b) * a);
    var p1 := Wrap64(High32(b) * a);
    CarryOut(p0, p1);
    var lo := Wrap64(p0 + Wrap64(p1 * 0x1_0000_0000));
    (Wrap32(High32(p1) + Bit(lo < p0)), lo)
  }

  /** The comparison with the first summand finds the carry, and the high part does not wrap. */
  lemma CarryOut(p0: uint64, p1: uint64)
    requires p0 <= 0xFFFF_FFFE_0000_0001 && p1 <= 0xFFFF_FFFE_0000_0001
    ensures var lo := Wrap64(p0 + Wrap64(p1 * 0x1_0000_0000));
            Wrap32(High32(p1) + Bit(lo < p0)) * TWO_64 + lo == p0 + p1 * 0x1_0000_0000
  {
  }

  /** The overload with a 32-bit low part. */
  function U32xU64Low(a: uint32, b: uint64): (r: (uint64, uint32))
    ensures r.0 * TWO_32 + r.1 == a * b
  {
    ProductBound(a, Low32(b), 0xFFFF_FFFF);
    ProductBound(a, High32(b), 0xFFFF_FFFF);
    Halves(a, b);
    var p0 := Wrap64(Low32(b) * a);
    var p1 := Wrap64(High32(b) * a);
    (Wrap64(High32(p0) + p1), Low32(p0))
  }

  /** The full 128-bit product. */
  function U64xU64(a: uint64, b: uint64): (r: (uint64, uint64))
    ensures r.0 * TWO_64 + r.1 == a * b
  {
    var p0 := U32xU64(Low32(b), a);
    var p1 := U32xU64Low(High32(b), a);
    PartsAdd(a, b, p0.0, p0.1, p1.0, p1.1);
    var lo := Wrap64(p0.1 + Wrap64(p1.1 * 0x1_0000_0000));
    (Wrap64(p0.0 + p1.0 + Bit(lo < p0.1)), lo)
  }

  lemma PartsAdd(a: uint64, b: uint64, p0h: uint32, p0l: uint64, p1h: uint64, p1l: uint32)
    requires p0h * TWO_64 + p0l == Low32(b) * a && p1h * TWO_32 + p1l == High32(b) * a
    ensures var lo := Wrap64(p0l + Wrap64(p1l * 0x1_0000_0000));
            Wrap64(p0h + p1h + Bit(lo < p0l)) * TWO_64 + lo == a * b
  {
    var up := Wrap64(p1l * 0x1_0000_0000);
    var lo := Wrap64(p0l + up);
    var hi := p0h + p1h + Bit(lo < p0l);
    Halves(a, b);
    assert a * b == p0h * TWO_64 + p0l + (p1h * TWO_32 + p1l) * TWO_32;
    assert hi * TWO_64 + lo == a * b;
    ProductBound(a, b, 0xFFFF_FFFF_FFFF_FFFF);
  }
}
