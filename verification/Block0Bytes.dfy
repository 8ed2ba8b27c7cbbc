/**
 Block 0 in memory. A little-endian host reads the big-endian bytes in the wrong order, converts
 them with the routine of `Block0Endian`, changes fields, and converts back. For a block 0 that
 `Block0Ok` accepts this is the same as changing the big-endian fields in place, which is how the
 partition map is modelled.
 */
module Block0Bytes {
  import opened Words
  import opened BigEndian
  import opened ApmBytes
  import opened ApmGrowth
  import opened Block0Endian

  function Little16(s: seq<uint8>, o: nat): uint16
    requires o + 2 <= |s|
  {
    s[o + 1] as int * 0x100 + s[o] as int
  }

  function Little32(s: seq<uint8>, o: nat): uint32
    requires o + 4 <= |s|
  {
    Little16(s, o + 2) * 0x1_0000 + Little16(s, o)
  }

  /** What the bytes say. */
  function Meant(s: seq<uint8>): Header
    requires |s| >= BLOCK
  {
    Header(Get16(s, 0), Get16(s, 2), Get32(s, 4), Get16(s, 8), Get16(s, 10), Get32(s, 12), Get16(s, 16))
  }

  function MeantDrivers(s: seq<uint8>, n: nat): (ds: seq<DDMap>)
    requires DriverOffset(n) <= |s|
    ensures |ds| == n
  {
    seq(n, i requires 0 <= i < n =>
      DDMap(Get32(s, DriverOffset(i)), Get16(s, DriverOffset(i) + 4), Get16(s, DriverOffset(i) + 6)))
  }

  /** What a little-endian host reads. */
  function Raw(s: seq<uint8>): Header
    requires |s| >= BLOCK
  {
    Header(Little16(s, 0), Little16(s, 2), Little32(s, 4), Little16(s, 8), Little16(s, 10), Little32(s, 12), Little16(s, 16))
  }

  function RawDrivers(s: seq<uint8>, n: nat): (ds: seq<DDMap>)
    requires DriverOffset(n) <= |s|
    ensures |ds| == n
  {
    seq(n, i requires 0 <= i < n =>
      DDMap(Little32(s, DriverOffset(i)), Little16(s, DriverOffset(i) + 4), Little16(s, DriverOffset(i) + 6)))
  }

  lemma Swapped16(s: seq<uint8>, o: nat)
    requires o + 2 <= |s|
    ensures Swap16(Little16(s, o)) == Get16(s, o) && Swap16(Get16(s, o)) == Little16(s, o)
  {
    ByteHalves(s[o] as int, s[o + 1] as int);
    ByteHalves(s[o + 1] as int, s[o] as int);
  }

  lemma Swapped32(s: seq<uint8>, o: nat)
    requires o + 4 <= |s|
    ensures Swap32(Little32(s, o)) == Get32(s, o) && Swap32(Get32(s, o)) == Little32(s, o)
  {
    hide Swap16;
    var hi, lo := Get16(s, o), Get16(s, o + 2);
    assert Get32(s, o) == hi as int * 0x1_0000 + lo as int;
    Halves(hi, lo);
    Halves(Little16(s, o + 2), Little16(s, o));
    Swapped16(s, o);
    Swapped16(s, o + 2);
  }

  lemma SwappedHeader(s: seq<uint8>)
    requires |s| >= BLOCK
    ensures SwapHeader(Raw(s)) == Meant(s) && SwapHeader(Meant(s)) == Raw(s)
  {
    hide Swap16, Swap32, Get16, Get32, Little16, Little32;
    Swapped16(s, 0);
    Swapped16(s, 2);
    Swapped32(s, 4);
    Swapped16(s, 8);
    Swapped16(s, 10);
    Swapped32(s, 12);
    Swapped16(s, 16);
  }

  lemma SwappedDriver(s: seq<uint8>, n: nat, i: nat)
    requires DriverOffset(n) <= |s| && i < n
    ensures SwapDriver(RawDrivers(s, n)[i]) == MeantDrivers(s, n)[i]
    ensures SwapDriver(MeantDrivers(s, n)[i]) == RawDrivers(s, n)[i]
  {
    hide Swap16, Swap32, Get16, Get32, Little16, Little32;
    Swapped32(s, DriverOffset(i));
    Swapped16(s, DriverOffset(i) + 4);
    Swapped16(s, DriverOffset(i) + 6);
  }

  /** To host order: the host sees what the bytes mean, in the header and in every driver entry. */
  lemma ToHost(s: seq<uint8>)
    requires |s| >= BLOCK && Block0Ok(s)
    ensures HeaderAfter(Raw(s)) == Meant(s)
    ensures DriversAfter(Raw(s), RawDrivers(s, DriverCount(s))) == MeantDrivers(s, DriverCount(s))
  {
    hide Swap16, Swap32, Get16, Get32, Little16, Little32, Clamped;
    Swapped16(s, 0);
    OneOrder();
    SwappedHeader(s);
    CountSurvivesIff(DriverCount(s), BlockSize(s));
    forall i | 0 <= i < DriverCount(s)
      ensures SwapDriver(RawDrivers(s, DriverCount(s))[i]) == MeantDrivers(s, DriverCount(s))[i]
    {
      SwappedDriver(s, DriverCount(s), i);
    }
  }

  /** And back: what the host holds becomes the bytes that mean it. */
  lemma FromHost(r: seq<uint8>)
    requires |r| >= BLOCK && Block0Ok(r)
    ensures HeaderAfter(Meant(r)) == Raw(r)
    ensures DriversAfter(Meant(r), MeantDrivers(r, DriverCount(r))) == RawDrivers(r, DriverCount(r))
  {
    hide Swap16, Swap32, Get16, Get32, Little16, Little32, Clamped;
    SwappedHeader(r);
    CountSurvivesIff(DriverCount(r), BlockSize(r));
    forall i | 0 <= i < DriverCount(r)
      ensures SwapDriver(MeantDrivers(r, DriverCount(r))[i]) == RawDrivers(r, DriverCount(r))[i]
    {
      SwappedDriver(r, DriverCount(r), i);
    }
  }

  /** Without an edit in between, there and back is the identity. */
  lemma ThereAndBack(s: seq<uint8>)
    requires |s| >= BLOCK && Block0Ok(s)
    ensures var h, ds := HeaderAfter(Raw(s)), DriversAfter(Raw(s), RawDrivers(s, DriverCount(s)));
            HeaderAfter(h) == Raw(s) && DriversAfter(h, ds) == RawDrivers(s, DriverCount(s))
  {
    hide HeaderAfter, DriversAfter, Meant, Raw, MeantDrivers, RawDrivers;
    ToHost(s);
    FromHost(s);
  }

  /** The edits of a growth step: the block count and the block of each driver. */
  function Edited(h: Header, inc: nat): Header { h.(blkCount := Wrap32(h.blkCount + inc)) }

  function EditedDrivers(ds: seq<DDMap>, inc: nat): seq<DDMap> {
    seq(|ds|, i requires 0 <= i < |ds| => ds[i].(block := Wrap32(ds[i].block + inc)))
  }

  lemma MovedHeader(s: seq<uint8>, r: seq<uint8>, drivers: nat, entries: nat, inc: nat)
    requires |s| >= BLOCK && Moved(s, r, drivers, entries, inc)
    ensures |r| == |s| && Block0Ok(r) == Block0Ok(s) && DriverCount(r) == DriverCount(s)
    ensures Meant(r) == Edited(Meant(s), inc)
  {
    hide Get16, Get32, Wrap32, Block0Ok;
    SameBlock0(s, r);
    SameField16(s, r, 0);
    SameField16(s, r, 2);
    SameField16(s, r, 8);
    SameField16(s, r, 10);
    SameField(s, r, 12);
    SameField16(s, r, 16);
  }

  lemma MovedDriver(s: seq<uint8>, r: seq<uint8>, drivers: nat, entries: nat, inc: nat, i: nat)
    requires |s| >= BLOCK && Moved(s, r, drivers, entries, inc) && i < drivers && DriverOffset(drivers) <= BLOCK
    ensures Get32(r, DriverOffset(i)) == Wrap32(Get32(s, DriverOffset(i)) + inc)
    ensures Get16(r, DriverOffset(i) + 4) == Get16(s, DriverOffset(i) + 4)
    ensures Get16(r, DriverOffset(i) + 6) == Get16(s, DriverOffset(i) + 6)
  {
    hide Get16, Get32, Wrap32;
    SameField16(s, r, DriverOffset(i) + 4);
    SameField16(s, r, DriverOffset(i) + 6);
  }

  lemma MovedMeans(s: seq<uint8>, r: seq<uint8>, entries: nat, inc: nat)
    requires |s| >= BLOCK && Block0Ok(s) && Moved(s, r, DriverCount(s), entries, inc)
    ensures |r| == |s| && Block0Ok(r) && DriverCount(r) == DriverCount(s)
    ensures Meant(r) == Edited(Meant(s), inc)
    ensures MeantDrivers(r, DriverCount(s)) == EditedDrivers(MeantDrivers(s, DriverCount(s)), inc)
  {
    hide Get16, Get32, Wrap32, Moved, Meant, Edited;
    MovedHeader(s, r, DriverCount(s), entries, inc);
    var now := MeantDrivers(r, DriverCount(s));
    forall i | 0 <= i < DriverCount(s)
      ensures now[i] == EditedDrivers(MeantDrivers(s, DriverCount(s)), inc)[i]
    {
      MovedDriver(s, r, DriverCount(s), entries, inc, i);
    }
  }

  /** Converting to host order, moving the blocks there and converting back gives the moved map. */
  lemma GrowthThroughHost(s: seq<uint8>, r: seq<uint8>, entries: nat, inc: nat)
    requires |s| >= BLOCK && Block0Ok(s) && Moved(s, r, DriverCount(s), entries, inc)
    ensures var n := DriverCount(s);
            var h, ds := Edited(HeaderAfter(Raw(s)), inc), EditedDrivers(DriversAfter(Raw(s), RawDrivers(s, n)), inc);
            |r| == |s| && HeaderAfter(h) == Raw(r) && DriversAfter(h, ds) == RawDrivers(r, n)
  {
    hide HeaderAfter, DriversAfter, Meant, Raw, MeantDrivers, RawDrivers, Moved, Edited, EditedDrivers, Block0Ok, DriverCount;
    MovedMeans(s, r, entries, inc);
    ToHost(s);
    FromHost(r);
  }

  /** And setting the block count there is storing it in place. */
  lemma CountThroughHost(s: seq<uint8>, v: uint32)
    requires |s| >= BLOCK && Block0Ok(s)
    ensures var n, r := DriverCount(s), Put32(s, 4, v);
            var h, ds := HeaderAfter(Raw(s)).(blkCount := v), DriversAfter(Raw(s), RawDrivers(s, n));
            HeaderAfter(h) == Raw(r) && DriversAfter(h, ds) == RawDrivers(r, n)
  {
    hide HeaderAfter, DriversAfter, Raw, RawDrivers, Get16, Get32, Put32;
    var r := Put32(s, 4, v);
    PutFrame(s, 4, v);
    PutGet(s, 4, v);
    SameBlock0(s, r);
    SameField16(s, r, 0);
    SameField16(s, r, 2);
    SameField16(s, r, 8);
    SameField16(s, r, 10);
    SameField(s, r, 12);
    SameField16(s, r, 16);
    forall i | 0 <= i < DriverCount(s)
      ensures MeantDrivers(r, DriverCount(s))[i] == MeantDrivers(s, DriverCount(s))[i]
    {
      SameField(s, r, DriverOffset(i));
      SameField16(s, r, DriverOffset(i) + 4);
      SameField16(s, r, DriverOffset(i) + 6);
    }
    ToHost(s);
    FromHost(r);
    assert MeantDrivers(r, DriverCount(s)) == MeantDrivers(s, DriverCount(s));
  }

  /** Without the signature in either order the header is converted, but the driver entries stay as they are. */
  lemma UnsignedDriversStay(s: seq<uint8>, n: nat)
    requires |s| >= BLOCK && DriverOffset(n) <= |s| && Get16(s, 0) != SB_SIG && Get16(s, 0) != Swap16(SB_SIG)
    ensures DriversAfter(Raw(s), RawDrivers(s, n)) == RawDrivers(s, n)
    ensures HeaderAfter(Raw(s)) == Meant(s)
  {
    hide Get16, Get32, Little16, Little32, Swap32, Clamped;
    Swapped16(s, 0);
    SwappedHeader(s);
    assert Swap16(Swap16(SB_SIG)) == SB_SIG;
  }

  lemma SwappedBytes(x: uint16)
    ensures Swap16(x) / 0x100 == x % 0x100 && Swap16(x) % 0x100 == x / 0x100
  {
    ByteHalves(x % 0x100, x / 0x100);
  }

  lemma OuterBytes(hi: uint16, lo: uint16)
    ensures (hi * 0x1_0000 + lo) / 0x100_0000 == hi / 0x100 && (hi * 0x1_0000 + lo) % 0x100 == lo % 0x100
  {
  }

  lemma SwappedParts(x: uint32)
    ensures Swap32(x) / 0x100_0000 == x % 0x100
    ensures Swap32(x) % 0x100 == x / 0x100_0000
  {
    hide Swap16;
    var hi, lo := x / 0x1_0000, x % 0x1_0000;
    SwappedBytes(hi);
    SwappedBytes(lo);
    OuterBytes(hi, lo);
    OuterBytes(Swap16(lo), Swap16(hi));
  }

  lemma WrapParts(top: int, rest: int)
    requires 0 <= rest < 0x100_0000
    ensures Wrap32(top * 0x100_0000 + rest) == top % 0x100 * 0x100_0000 + rest
  {
    hide Wrap32;
    var low := top % 0x100 * 0x100_0000 + rest;
    WrapMultiple(top / 0x100, low);
    assert top / 0x100 * TWO_32 + low == top * 0x100_0000 + rest;
  }

  lemma WrapMultiple(k: int, x: uint32)
    ensures Wrap32(k * TWO_32 + x) == x
  {
  }

  /** The top byte of a sum takes the top bytes and at most one carry, the low byte none. */
  lemma TopByteOfSum(x: uint32, inc: nat)
    ensures var top := Wrap32(x + inc) / 0x100_0000;
            top == (x / 0x100_0000 + inc / 0x100_0000) % 0x100 || top == (x / 0x100_0000 + inc / 0x100_0000 + 1) % 0x100
    ensures Wrap32(x + inc) % 0x100 == (x + inc) % 0x100
  {
    hide Wrap32;
    var sum := x + inc;
    WrapParts(sum / 0x100_0000, sum % 0x100_0000);
  }

  /**
   So a driver that moves by `inc` blocks ends up at another block than the one `inc` blocks later,
   whichever block it had, as soon as the low byte of `inc` exceeds its top byte by more than the one
   that a carry can make.
   */
  lemma UnsignedDriverMisplaced(s: seq<uint8>, n: nat, i: nat, inc: nat)
    requires |s| >= BLOCK && DriverOffset(n) <= |s| && Get16(s, 0) != SB_SIG && Get16(s, 0) != Swap16(SB_SIG)
    requires i < n && (inc - inc / 0x100_0000) % 0x100 > 1
    ensures var h, ds := Edited(HeaderAfter(Raw(s)), inc), EditedDrivers(DriversAfter(Raw(s), RawDrivers(s, n)), inc);
            && DriversAfter(h, ds) == ds
            && SwapDriver(ds[i]).block != Wrap32(Get32(s, DriverOffset(i)) + inc)
  {
    hide Get16, Get32, Little16, Little32, Swap16, Swap32, Wrap32, DriversAfter, HeaderAfter, Raw, Edited, Swapped;
    UnsignedDriversStay(s, n);
    UnsignedEdited(s, inc);
    NoneSwapped(Edited(HeaderAfter(Raw(s)), inc), EditedDrivers(RawDrivers(s, n), inc));
    var block, raw := Get32(s, DriverOffset(i)), Little32(s, DriverOffset(i));
    Swapped32(s, DriverOffset(i));
    SwappedParts(block);
    SwappedParts(Wrap32(raw + inc));
    TopByteOfSum(raw, inc);
    TopByteOfSum(block, inc);
    SameLowByte(raw, block / 0x100_0000, inc);
    TopBytesDiffer(block / 0x100_0000, inc, inc / 0x100_0000);
  }

  lemma SameLowByte(x: int, low: int, inc: int)
    requires x % 0x100 == low % 0x100
    ensures (x + inc) % 0x100 == (low + inc) % 0x100
  {
  }

  lemma TopBytesDiffer(top: int, inc: int, carried: int)
    requires (inc - carried) % 0x100 > 1
    ensures (top + inc) % 0x100 != (top + carried) % 0x100 && (top + inc) % 0x100 != (top + carried + 1) % 0x100
  {
  }

  lemma NoneSwapped(h: Header, ds: seq<DDMap>)
    requires Swapped(h) == 0
    ensures DriversAfter(h, ds) == ds
  {
    hide Swapped;
  }

  lemma UnsignedEdited(s: seq<uint8>, inc: nat)
    requires |s| >= BLOCK && Get16(s, 0) != SB_SIG && Get16(s, 0) != Swap16(SB_SIG)
    ensures Swapped(Edited(HeaderAfter(Raw(s)), inc)) == 0
  {
    hide Get16, Get32, Swap16, Swap32, Clamped, Wrap32, HeaderAfter, Raw;
    UnsignedDriversStay(s, 0);
    Swap16Twice(Get16(s, 0));
  }
}
