/** Big-endian numbers in byte buffers, as core/memaccess.h reads and writes them. */
module BigEndian {
  import opened Words

  function Get16(s: seq<uint8>, o: nat): uint16
    requires o + 2 <= |s|
  {
    s[o] as int * 0x100 + s[o + 1] as int
  }

  function Get32(s: seq<uint8>, o: nat): uint32
    requires o + 4 <= |s|
  {
    s[o] as int * 0x100_0000 + s[o + 1] as int * 0x1_0000 + s[o + 2] as int * 0x100 + s[o + 3] as int
  }

  function Put32(s: seq<uint8>, o: nat, v: uint32): (r: seq<uint8>)
    requires o + 4 <= |s|
    ensures |r| == |s| && forall k :: 0 <= k < |s| && !(o <= k < o + 4) ==> r[k] == s[k]
  {
    var hi, lo := v / 0x1_0000, v % 0x1_0000;
    s[o := hi / 0x100][o + 1 := hi % 0x100][o + 2 := lo / 0x100][o + 3 := lo % 0x100]
  }

  lemma PutGet(s: seq<uint8>, o: nat, v: uint32)
    requires o + 4 <= |s|
    ensures Get32(Put32(s, o, v), o) == v
  {
  }

  /** The bytes of a stored number are its digits to the base 256, the most significant first. */
  lemma PutDigits(s: seq<uint8>, o: nat, v: uint32)
    requires o + 4 <= |s|
    ensures var r := Put32(s, o, v);
            && r[o] == v / 0x100_0000 && r[o + 1] == v / 0x1_0000 % 0x100
            && r[o + 2] == v / 0x100 % 0x100 && r[o + 3] == v % 0x100
    ensures Get16(Put32(s, o, v), o) == v / 0x1_0000 && Get16(Put32(s, o, v), o + 2) == v % 0x1_0000
  {
    TopDigit(v);
    LowDigit(v);
  }

  lemma TopDigit(v: nat)
    ensures v / 0x1_0000 / 0x100 == v / 0x100_0000
  {
  }

  lemma LowDigit(v: nat)
    ensures v % 0x1_0000 / 0x100 == v / 0x100 % 0x100 && v % 0x1_0000 % 0x100 == v % 0x100
  {
  }

  /** A field keeps its value when its bytes do. */
  lemma SameField(s: seq<uint8>, r: seq<uint8>, o: nat)
    requires o + 4 <= |s| && o + 4 <= |r| && forall k :: o <= k < o + 4 ==> r[k] == s[k]
    ensures Get32(r, o) == Get32(s, o)
  {
  }

  lemma SameField16(s: seq<uint8>, r: seq<uint8>, o: nat)
    requires o + 2 <= |s| && o + 2 <= |r| && forall k :: o <= k < o + 2 ==> r[k] == s[k]
    ensures Get16(r, o) == Get16(s, o)
  {
  }

  method Write32(a: array<uint8>, o: nat, v: uint32)
    requires o + 4 <= a.Length
    modifies a
    ensures a[..] == Put32(old(a[..]), o, v)
  {
    var hi, lo := v / 0x1_0000, v % 0x1_0000;
    a[o], a[o + 1], a[o + 2], a[o + 3] := hi / 0x100, hi % 0x100, lo / 0x100, lo % 0x100;
  }

  // ----- 64 bits

  function Get64(s: seq<uint8>, o: nat): uint64
    requires o + 8 <= |s|
  {
    Get32(s, o) * 0x1_0000_0000 + Get32(s, o + 4)
  }

  function Put64(s: seq<uint8>, o: nat, v: uint64): (r: seq<uint8>)
    requires o + 8 <= |s|
    ensures |r| == |s| && forall k :: 0 <= k < |s| && !(o <= k < o + 8) ==> r[k] == s[k]
  {
    Put32(Put32(s, o, v / 0x1_0000_0000), o + 4, v % 0x1_0000_0000)
  }

  lemma PutGet64(s: seq<uint8>, o: nat, v: uint64)
    requires o + 8 <= |s|
    ensures Get64(Put64(s, o, v), o) == v
  {
  }

  lemma PutDigits64(s: seq<uint8>, o: nat, v: uint64)
    requires o + 8 <= |s|
    ensures Get32(Put64(s, o, v), o) == v / 0x1_0000_0000 && Get32(Put64(s, o, v), o + 4) == v % 0x1_0000_0000
  {
    hide Get32, Put32;
    var r := Put32(s, o, v / 0x1_0000_0000);
    PutGet(s, o, v / 0x1_0000_0000);
    PutGet(r, o + 4, v % 0x1_0000_0000);
    PutKeeps(r, o + 4, v % 0x1_0000_0000, o);
  }

  /** Writing a field leaves the fields that do not overlap it. */
  lemma PutKeeps(s: seq<uint8>, o: nat, v: uint32, p: nat)
    requires o + 4 <= |s| && p + 4 <= |s| && (p + 4 <= o || o + 4 <= p)
    ensures Get32(Put32(s, o, v), p) == Get32(s, p)
  {
  }

  lemma PutFrame(s: seq<uint8>, o: nat, v: uint32)
    requires o + 4 <= |s|
    ensures |Put32(s, o, v)| == |s|
    ensures forall k :: 0 <= k < |s| && !(o <= k < o + 4) ==> Put32(s, o, v)[k] == s[k]
  {
  }

  method Write64(a: array<uint8>, o: nat, v: uint64)
    requires o + 8 <= a.Length
    modifies a
    ensures a[..] == Put64(old(a[..]), o, v)
  {
    Write32(a, o, v / 0x1_0000_0000);
    Write32(a, o + 4, v % 0x1_0000_0000);
  }
}
