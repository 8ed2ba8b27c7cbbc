/**
 Byte order of block 0 of a partition-mapped disk, as Block0_endian_swap of utils/metaimgfile.cpp
 changes it in place: one routine serves both directions and finds out by the signature which way
 it goes. `drivers` are the driver map entries in memory from block 0 on.
 */
module Block0Endian {
  import opened Words
  import opened ApmBytes

  datatype DDMap = DDMap(block: uint32, size: uint16, kind: uint16)

  datatype Header = Header(sig: uint16, blkSize: uint16, blkCount: uint32, devType: uint16, devId: uint16, data: uint32, drvrCount: uint16)

  function Swap16(x: uint16): (r: uint16)
  {
    x % 0x100 * 0x100 + x / 0x100
  }

  function Swap32(x: uint32): (r: uint32)
  {
    Swap16(x % 0x1_0000) * 0x1_0000 + Swap16(x / 0x1_0000)
  }

  lemma SwapTwice(x: uint16, y: uint32)
    ensures Swap16(Swap16(x)) == x && Swap32(Swap32(y)) == y
  {
    var lo, hi: uint16 := y % 0x1_0000, y / 0x1_0000;
    Swap16Twice(x);
    Swap16Twice(lo);
    Swap16Twice(hi);
    Halves(Swap16(lo), Swap16(hi));
  }

  lemma Swap16Twice(x: uint16)
    ensures Swap16(Swap16(x)) == x
  {
    var hi: int, lo: int := x / 0x100, x % 0x100;
    ByteHalves(lo, hi);
    assert Swap16(x) == lo * 0x100 + hi;
  }

  lemma ByteHalves(hi: int, lo: int)
    requires 0 <= lo < 0x100
    ensures (hi * 0x100 + lo) % 0x100 == lo && (hi * 0x100 + lo) / 0x100 == hi
  {
  }

  lemma Halves(hi: uint16, lo: uint16)
    ensures (hi * 0x1_0000 + lo) % 0x1_0000 == lo && (hi * 0x1_0000 + lo) / 0x1_0000 == hi
  {
  }

  function SwapHeader(h: Header): Header {
    Header(Swap16(h.sig), Swap16(h.blkSize), Swap32(h.blkCount), Swap16(h.devType), Swap16(h.devId), Swap32(h.data), Swap16(h.drvrCount))
  }

  function SwapDriver(d: DDMap): DDMap {
    DDMap(Swap32(d.block), Swap16(d.size), Swap16(d.kind))
  }

  /**
   How many driver entries fit a block. The subtraction is unsigned in the source: for a block size
   below 18 the quotient, taken as an int, is negative.
   */
  function MaxMaps(blkSize: uint16): int {
    if blkSize >= 18 then (blkSize - 18) / 8 else -((18 - blkSize + 7) / 8)
  }

  function Clamped(count: uint16, blkSize: uint16): uint16 {
    if count > MaxMaps(blkSize) then MaxMaps(blkSize) % 0x1_0000 else count
  }

  /** The header after the routine. A header that carries the signature in neither order is swapped all the same. */
  function HeaderAfter(h: Header): Header {
    if h.sig == SB_SIG then SwapHeader(h.(drvrCount := Clamped(h.drvrCount, h.blkSize)))
    else
      var s := SwapHeader(h);
      if s.sig == SB_SIG then s.(drvrCount := Clamped(s.drvrCount, s.blkSize)) else s
  }

  /** The number of driver entries the routine swaps: the count before it is cut down. */
  function Swapped(h: Header): nat {
    if h.sig == SB_SIG then h.drvrCount
    else if SwapHeader(h).sig == SB_SIG then SwapHeader(h).drvrCount
    else 0
  }

  /** The driver entries after the routine. */
  function DriversAfter(h: Header, ds: seq<DDMap>): (r: seq<DDMap>)
    ensures |r| == |ds|
  {
    seq(|ds|, i requires 0 <= i < |ds| => if i < Swapped(h) then SwapDriver(ds[i]) else ds[i])
  }

  class Block0 {
    var header: Header
    const drivers: array<DDMap>

    constructor (header: Header, drivers: array<DDMap>)
      ensures this.header == header && this.drivers == drivers
    {
      this.header, this.drivers := header, drivers;
    }

    method EndianSwap()
      requires Swapped(header) <= drivers.Length
      modifies this, drivers
      ensures header == HeaderAfter(old(header)) && drivers[..] == DriversAfter(old(header), old(drivers[..]))
    {
      hide Swap16, Swap32, Clamped;
      OneOrder();
      var count := 0;
      if header.sig == SB_SIG {
        count := header.drvrCount;
        header := header.(drvrCount := Clamped(header.drvrCount, header.blkSize));
      }
      header := SwapHeader(header);
      if header.sig == SB_SIG {
        count := header.drvrCount;
        header := header.(drvrCount := Clamped(header.drvrCount, header.blkSize));
      }
      for i := 0 to count
        invariant header == HeaderAfter(old(header))
        invariant forall j :: 0 <= j < drivers.Length ==>
                    drivers[j] == if j < i then SwapDriver(old(drivers[j])) else old(drivers[j])
      {
        drivers[i] := SwapDriver(drivers[i]);
      }
    }
  }

  lemma OneOrder()
    ensures Swap16(SB_SIG) != SB_SIG
  {
  }

  /**
   To host order and back, starting from a big-endian block: the block is unchanged exactly when
   its driver count was not cut down. Otherwise the count is, and the drivers beyond it stay
   swapped.
   */
  lemma RoundTripIff(h: Header, ds: seq<DDMap>)
    requires Swap16(h.sig) == SB_SIG
    ensures var h1, ds1 := HeaderAfter(h), DriversAfter(h, ds);
            var h2, ds2 := HeaderAfter(h1), DriversAfter(h1, ds1);
            var count, cut := Swap16(h.drvrCount), Clamped(Swap16(h.drvrCount), Swap16(h.blkSize));
            && (h2 == h && ds2 == ds <==> cut == count)
            && h2 == h.(drvrCount := Swap16(cut))
            && forall i :: 0 <= i < |ds| ==> ds2[i] == if (i < count) != (i < cut) then SwapDriver(ds[i]) else ds[i]
  {
    hide Swap16, Swap32, Clamped;
    OneOrder();
    var count, cut := Swap16(h.drvrCount), Clamped(Swap16(h.drvrCount), Swap16(h.blkSize));
    SwapTwice(h.sig, h.blkCount);
    SwapTwice(h.blkSize, h.data);
    SwapTwice(h.devType, 0);
    SwapTwice(h.devId, 0);
    SwapTwice(h.drvrCount, 0);
    SwapTwice(cut, 0);
    CutAgain(count, Swap16(h.blkSize));
    forall i | 0 <= i < |ds|
      ensures SwapDriver(SwapDriver(ds[i])) == ds[i]
    {
      SwapTwice(ds[i].size, ds[i].block);
      SwapTwice(ds[i].kind, 0);
    }
  }

  /** In either direction the count that is left is the given one or the largest that fits the block, and all given entries are swapped. */
  lemma CountCut(h: Header)
    requires h.sig == SB_SIG || Swap16(h.sig) == SB_SIG
    ensures var toHost := h.sig != SB_SIG;
            var count, size := if toHost then Swap16(h.drvrCount) else h.drvrCount, if toHost then Swap16(h.blkSize) else h.blkSize;
            var left := if toHost then HeaderAfter(h).drvrCount else Swap16(HeaderAfter(h).drvrCount);
            && Swapped(h) == count
            && (size >= 18 ==> left <= count && (left == count || 18 + 8 * left <= size < 18 + 8 * (left + 1)))
            && (size >= 18 && 18 + 8 * count <= size ==> left == count)
  {
    hide Swap16, Swap32, Clamped;
    SwapTwice(Clamped(h.drvrCount, h.blkSize), 0);
    OneOrder();
    if h.sig == SB_SIG && h.blkSize >= 18 {
      CountLeft(h.drvrCount, h.blkSize);
    }
    if h.sig != SB_SIG && Swap16(h.blkSize) >= 18 {
      CountLeft(Swap16(h.drvrCount), Swap16(h.blkSize));
    }
  }

  lemma CountLeft(count: uint16, blkSize: uint16)
    requires blkSize >= 18
    ensures var left := Clamped(count, blkSize);
            left <= count && (left == count || 18 + 8 * left <= blkSize < 18 + 8 * (left + 1))
            && (18 + 8 * count <= blkSize ==> left == count)
  {
    CountSurvivesIff(count, blkSize);
  }

  lemma CutAgain(count: uint16, blkSize: uint16)
    ensures Clamped(Clamped(count, blkSize), blkSize) == Clamped(count, blkSize)
  {
  }

  /**
   The count survives exactly when that many entries fit the block. For a block size below 18 the
   comparison is with a negative number, and the only counts that survive are the ones that the
   conversion of that number to 16 bits gives.
   */
  lemma CountSurvivesIff(count: uint16, blkSize: uint16)
    ensures Clamped(count, blkSize) == count <==>
            if blkSize >= 18 then 18 + 8 * count <= blkSize
            else count == if blkSize >= 10 then 0xFFFF else if blkSize >= 2 then 0xFFFE else 0xFFFD
    ensures blkSize >= 18 && 18 + 8 * count > blkSize ==>
              18 + 8 * Clamped(count, blkSize) <= blkSize < 18 + 8 * (Clamped(count, blkSize) + 1)
  {
  }
}
