/**
 The Apple Partition Map as bytes: block 0 with the driver map, then one 512-byte entry per
 partition, all fields big-endian. Field offsets are those of the structures Block0, DDMap and
 Partition in thirdparty/Apple/PartitionsAndVolumes.h.
 */
module ApmBytes {
  import opened Words
  import opened BigEndian

  const BLOCK := 512

  function Add32(s: seq<uint8>, o: nat, inc: nat): (r: seq<uint8>)
    requires o + 4 <= |s|
    ensures |r| == |s| && forall k :: 0 <= k < |s| && !(o <= k < o + 4) ==> r[k] == s[k]
    ensures Get32(r, o) == Wrap32(Get32(s, o) + inc)
  {
    PutGet(s, o, Wrap32(Get32(s, o) + inc));
    Put32(s, o, Wrap32(Get32(s, o) + inc))
  }

  method Increase32(a: array<uint8>, o: nat, inc: nat)
    requires o + 4 <= a.Length
    modifies a
    ensures a[..] == Add32(old(a[..]), o, inc)
  {
    Write32(a, o, Wrap32(Get32(a[..], o) + inc));
  }

  // ----- Block 0

  const SB_SIG := 0x4552

  function BlockSize(s: seq<uint8>): uint16
    requires |s| >= BLOCK
  {
    Get16(s, 2)
  }

  function BlockCount(s: seq<uint8>): uint32
    requires |s| >= BLOCK
  {
    Get32(s, 4)
  }

  function DriverCount(s: seq<uint8>): uint16
    requires |s| >= BLOCK
  {
    Get16(s, 16)
  }

  function DriverOffset(i: nat): nat { 18 + 8 * i }

  /** Block 0 carries its signature, and its driver entries fit both the block size it names and block 0 itself. */
  predicate Block0Ok(s: seq<uint8>)
    requires |s| >= BLOCK
  {
    Get16(s, 0) == SB_SIG && DriverOffset(DriverCount(s)) <= BlockSize(s) && DriverOffset(DriverCount(s)) <= BLOCK
  }

  /** Only the signature, the block size and the driver count matter for that. */
  lemma SameBlock0(s: seq<uint8>, r: seq<uint8>)
    requires |s| >= BLOCK && |r| >= BLOCK && forall k :: 0 <= k < 4 || 16 <= k < 18 ==> r[k] == s[k]
    ensures Block0Ok(r) == Block0Ok(s) && DriverCount(r) == DriverCount(s)
  {
  }

  // ----- Partition entries; entry 1 is the map itself

  const PM_SIG := 0x504D

  function Field(s: seq<uint8>, entry: nat, offset: nat): uint32
    requires offset + 4 <= BLOCK && (entry + 1) * BLOCK <= |s|
  {
    Get32(s, entry * BLOCK + offset)
  }

  const MAP_BLK_CNT := 4
  const PY_PART_START := 8
  const PART_BLK_CNT := 12
  const PAR_TYPE := 48
  const DATA_CNT := 84
}
