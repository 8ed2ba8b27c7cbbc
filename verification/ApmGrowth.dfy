/**
 Growing a partition map in place, as the end of MetaImgFile::reserve_partitions does: the bytes
 after the map move up, and every block number in block 0 and in the entries moves with them.
 */
module ApmGrowth {
  import opened Words
  import opened ApmBytes
  import opened BigEndian

  const MIN_UNUSED := 8
  const INCREMENT := 64

  /** The blocks by which the map grows to hold `wanted` more entries and the spare ones. */
  function Growth(used: nat, max: nat, wanted: nat): nat {
    var need := used + MIN_UNUSED + wanted;
    if need <= max then 0 else (1 + need + INCREMENT - 1) / INCREMENT * INCREMENT - 1 - max
  }

  /** Growth never shrinks the map, leaves room for what was asked, and keeps block 0 and map a multiple of 64 blocks. */
  lemma GrowthFits(used: nat, max: nat, wanted: nat)
    ensures used + 8 + wanted <= max + Growth(used, max, wanted)
    ensures Growth(used, max, wanted) > 0 ==> (1 + max + Growth(used, max, wanted)) % 64 == 0
    ensures Growth(used, max, wanted) > 0 ==> max + Growth(used, max, wanted) < used + 8 + wanted + 64
    ensures Growth(used, max, wanted) == 0 <==> used + 8 + wanted <= max
  {
    var need := used + MIN_UNUSED + wanted;
    var blocks := (1 + need + INCREMENT - 1) / INCREMENT;
    assert (1 + need + INCREMENT - 1) % INCREMENT < INCREMENT;
    assert blocks * INCREMENT >= need + 1;
    assert blocks * INCREMENT % INCREMENT == 0;
  }

  /**
   A map of room for `max` entries with `used` of them in use. Just after it is loaded its count
   still includes the sample volume that the first added partition replaces. Block 0 must be one that
   the conversions to host order and back leave as it is; see `Block0Bytes`.
   */
  ghost predicate MapOk(s: seq<uint8>, used: nat, max: nat) {
    && 1 <= used <= max < 0x8000_0000 && (max + 1) * BLOCK <= |s|
    && (Field(s, 1, MAP_BLK_CNT) == used || (Field(s, 1, MAP_BLK_CNT) == used + 1 && used + 1 <= max))
    && Block0Ok(s)
  }

  /** Whether byte `j` belongs to a field that moves: in block 0, its first `drivers` drivers, or the first `entries` entries. */
  predicate Moves(j: nat, drivers: nat, entries: nat) {
    || 4 <= j < 8
    || (18 <= j < DriverOffset(drivers) && (j - 18) % 8 < 4)
    || (entries >= 1 && (BLOCK + PART_BLK_CNT <= j < BLOCK + PART_BLK_CNT + 4 || BLOCK + DATA_CNT <= j < BLOCK + DATA_CNT + 4))
    || (2 <= j / 512 <= entries && PY_PART_START <= j % 512 < PY_PART_START + 4)
  }

  /** `r` is `s` with the block numbers moved by `inc`, the map's own length grown by it, and nothing else changed. */
  ghost predicate Moved(s: seq<uint8>, r: seq<uint8>, drivers: nat, entries: nat, inc: nat) {
    && |r| == |s| && (entries + 1) * BLOCK <= |s| && DriverOffset(drivers) <= BLOCK
    && BlockCount(r) == Wrap32(BlockCount(s) + inc)
    && (forall i :: 0 <= i < drivers ==> Get32(r, DriverOffset(i)) == Wrap32(Get32(s, DriverOffset(i)) + inc))
    && (entries >= 1 ==> Field(r, 1, PART_BLK_CNT) == Wrap32(Field(s, 1, PART_BLK_CNT) + inc)
                         && Field(r, 1, DATA_CNT) == Wrap32(Field(s, 1, DATA_CNT) + inc))
    && (forall k :: 2 <= k <= entries ==> Field(r, k, PY_PART_START) == Wrap32(Field(s, k, PY_PART_START) + inc))
    && (forall j :: 0 <= j < |s| && !Moves(j, drivers, entries) ==> r[j] == s[j])
  }

  lemma MoreMoves(j: nat, drivers: nat, entries: nat)
    ensures Moves(j, drivers, entries) ==> Moves(j, drivers + 1, entries) && Moves(j, drivers, entries + 1)
  {
  }

  lemma DriverMoves(j: nat, i: nat)
    ensures DriverOffset(i) <= j < DriverOffset(i) + 4 ==> Moves(j, i + 1, 0)
  {
  }

  lemma StartMoves(j: nat, drivers: nat, k: nat)
    requires k >= 2
    ensures k * BLOCK + PY_PART_START <= j < k * BLOCK + PY_PART_START + 4 ==> Moves(j, drivers, k)
  {
  }

  lemma DriverStep(s: seq<uint8>, r: seq<uint8>, i: nat, inc: nat)
    requires Moved(s, r, i, 0, inc) && DriverOffset(i + 1) <= BLOCK
    ensures Moved(s, Add32(r, DriverOffset(i), inc), i + 1, 0, inc)
  {
    hide Get32, Put32, Add32, Wrap32;
    var t := Add32(r, DriverOffset(i), inc);
    forall j | 0 <= j < |s| && !Moves(j, i + 1, 0)
      ensures t[j] == s[j]
    {
      MoreMoves(j, i, 0);
      DriverMoves(j, i);
    }
    SameField(r, t, 4);
    SameField(s, r, DriverOffset(i));
    forall d | 0 <= d < i
      ensures Get32(t, DriverOffset(d)) == Get32(r, DriverOffset(d))
    {
      SameField(r, t, DriverOffset(d));
    }
  }

  lemma FirstEntryStep(s: seq<uint8>, r: seq<uint8>, drivers: nat, inc: nat)
    requires Moved(s, r, drivers, 0, inc) && 2 * BLOCK <= |s|
    ensures Moved(s, Add32(Add32(r, BLOCK + PART_BLK_CNT, inc), BLOCK + DATA_CNT, inc), drivers, 1, inc)
  {
    hide Get32, Put32, Add32, Wrap32;
    var q := Add32(r, BLOCK + PART_BLK_CNT, inc);
    var t := Add32(q, BLOCK + DATA_CNT, inc);
    SameField(r, t, 4);
    SameField(s, r, BLOCK + PART_BLK_CNT);
    SameField(s, q, BLOCK + DATA_CNT);
    SameField(q, t, BLOCK + PART_BLK_CNT);
    forall d | 0 <= d < drivers
      ensures Get32(t, DriverOffset(d)) == Get32(r, DriverOffset(d))
    {
      SameField(r, t, DriverOffset(d));
    }
  }

  lemma EntryStep(s: seq<uint8>, r: seq<uint8>, drivers: nat, k: nat, inc: nat)
    requires k >= 1 && Moved(s, r, drivers, k, inc) && (k + 2) * BLOCK <= |s|
    ensures Moved(s, Add32(r, (k + 1) * BLOCK + PY_PART_START, inc), drivers, k + 1, inc)
  {
    hide Get32, Put32, Add32, Wrap32;
    var o := (k + 1) * BLOCK + PY_PART_START;
    var t := Add32(r, o, inc);
    forall j | 0 <= j < |s| && !Moves(j, drivers, k + 1)
      ensures t[j] == s[j]
    {
      MoreMoves(j, drivers, k);
      StartMoves(j, drivers, k + 1);
    }
    SameField(r, t, 4);
    SameField(s, r, o);
    SameField(r, t, BLOCK + PART_BLK_CNT);
    SameField(r, t, BLOCK + DATA_CNT);
    forall d | 0 <= d < drivers
      ensures Get32(t, DriverOffset(d)) == Get32(r, DriverOffset(d))
    {
      SameField(r, t, DriverOffset(d));
    }
    forall e | 2 <= e <= k
      ensures Field(t, e, PY_PART_START) == Field(r, e, PY_PART_START)
    {
      SameField(r, t, e * BLOCK + PY_PART_START);
    }
  }

  /** Moves the block numbers of the map in `a` by `inc`. */
  method MoveMap(a: array<uint8>, inc: nat)
    requires a.Length >= 2 * BLOCK && Block0Ok(a[..])
    requires (Field(a[..], 1, MAP_BLK_CNT) + 1) * BLOCK <= a.Length
    modifies a
    ensures var entries := if Field(old(a[..]), 1, MAP_BLK_CNT) == 0 then 1 else Field(old(a[..]), 1, MAP_BLK_CNT);
            Moved(old(a[..]), a[..], DriverCount(old(a[..])), entries, inc)
  {
    hide Moved, Add32;
    ghost var s := a[..];
    var drivers := DriverCount(a[..]);
    Increase32(a, 4, inc);
    assert Moved(s, a[..], 0, 0, inc) by {
      BlockStep(s, inc);
    }
    var i := 0;
    while i < drivers
      invariant 0 <= i <= drivers && Moved(s, a[..], i, 0, inc)
    {
      DriverStep(s, a[..], i, inc);
      Increase32(a, DriverOffset(i), inc);
      i := i + 1;
    }
    CountUnmoved(s, a[..], drivers, inc);
    var entries := Field(a[..], 1, MAP_BLK_CNT);
    FirstEntryStep(s, a[..], drivers, inc);
    Increase32(a, BLOCK + PART_BLK_CNT, inc);
    Increase32(a, BLOCK + DATA_CNT, inc);
    var part := 2;
    while part <= entries
      invariant 2 <= part && (part <= entries + 1 || (part == 2 && entries == 0))
      invariant Moved(s, a[..], drivers, part - 1, inc)
    {
      EntryStep(s, a[..], drivers, part - 1, inc);
      Increase32(a, part * BLOCK + PY_PART_START, inc);
      part := part + 1;
    }
  }

  lemma BlockStep(s: seq<uint8>, inc: nat)
    requires |s| >= BLOCK
    ensures Moved(s, Add32(s, 4, inc), 0, 0, inc)
  {
  }

  lemma CountUnmoved(s: seq<uint8>, r: seq<uint8>, drivers: nat, inc: nat)
    requires Moved(s, r, drivers, 0, inc) && |s| >= 2 * BLOCK
    ensures |r| == |s| && Field(r, 1, MAP_BLK_CNT) == Field(s, 1, MAP_BLK_CNT)
  {
    SameField(s, r, BLOCK + MAP_BLK_CNT);
  }

  // ----- Making room

  /**
   `r` is the map `s` with room for `inc` more blocks: block 0 and the used entries stay in place,
   everything from the old end of the map on moves up.
   */
  ghost predicate Widened(s: seq<uint8>, r: seq<uint8>, used: nat, max: nat, inc: nat) {
    && used <= max && (max + 1) * BLOCK <= |s| && |r| == |s| + inc * BLOCK
    && (forall j :: 0 <= j < (used + 1) * BLOCK ==> r[j] == s[j])
    && (forall j :: (used + 1) * BLOCK <= j < (used + 1) * BLOCK + inc * BLOCK ==> r[j] == 0)
    && (forall j :: (max + 1) * BLOCK <= j < |s| ==> r[j + inc * BLOCK] == s[j])
  }

  /** The bytes in between, of entries that are not in use, are whatever the new memory holds. */
  method Widen(bytes: array<uint8>, used: nat, max: nat, inc: nat) returns (data2: array<uint8>)
    requires used <= max && (max + 1) * BLOCK <= bytes.Length
    ensures fresh(data2) && Widened(bytes[..], data2[..], used, max, inc)
  {
    var partitionsStart := (max + 1) * BLOCK;
    var mapSize := (used + 1) * BLOCK;
    var bytesIncrement := inc * BLOCK;
    data2 := new uint8[bytes.Length + bytesIncrement];
    forall k | 0 <= k < mapSize {
      data2[k] := bytes[k];
    }
    forall k | mapSize <= k < mapSize + bytesIncrement {
      data2[k] := 0;
    }
    forall k | partitionsStart + bytesIncrement <= k < data2.Length {
      data2[k] := bytes[k - bytesIncrement];
    }
  }

  /**
   The map after growing: what followed the map has moved up by `inc` blocks, block 0 and the used
   entries name the moved blocks, and their other bytes are unchanged.
   */
  ghost predicate Grown(s: seq<uint8>, r: seq<uint8>, used: nat, max: nat, inc: nat) {
    && MapOk(s, used, max) && MapOk(r, used, max) && |r| == |s| + inc * BLOCK
    && BlockCount(r) == Wrap32(BlockCount(s) + inc) && DriverCount(r) == DriverCount(s)
    && (forall i :: 0 <= i < DriverCount(s) ==> Get32(r, DriverOffset(i)) == Wrap32(Get32(s, DriverOffset(i)) + inc))
    && Field(r, 1, PART_BLK_CNT) == Wrap32(Field(s, 1, PART_BLK_CNT) + inc)
    && Field(r, 1, DATA_CNT) == Wrap32(Field(s, 1, DATA_CNT) + inc)
    && (forall k :: 2 <= k <= used ==> Field(r, k, PY_PART_START) == Wrap32(Field(s, k, PY_PART_START) + inc))
    && (forall j :: 0 <= j < (used + 1) * BLOCK && !Moves(j, DriverCount(s), used) ==> r[j] == s[j])
    && (forall j :: (max + 1) * BLOCK <= j < |s| ==> r[j + inc * BLOCK] == s[j])
  }

  lemma WidenedMoved(s: seq<uint8>, w: seq<uint8>, r: seq<uint8>, used: nat, max: nat, inc: nat)
    requires MapOk(s, used, max) && Widened(s, w, used, max, inc) && inc > 0
    requires Moved(w, r, DriverCount(w), Field(w, 1, MAP_BLK_CNT), inc)
    ensures Grown(s, r, used, max, inc)
  {
    hide Get16, Get32, Wrap32, Block0Ok;
    SameBlock0(s, w);
    SameBlock0(w, r);
    SameField(s, w, 4);
    SameField(s, w, BLOCK + MAP_BLK_CNT);
    SameField(w, r, BLOCK + MAP_BLK_CNT);
    SameField(s, w, BLOCK + PART_BLK_CNT);
    SameField(s, w, BLOCK + DATA_CNT);
    forall i | 0 <= i < DriverCount(s)
      ensures Get32(w, DriverOffset(i)) == Get32(s, DriverOffset(i))
    {
      SameField(s, w, DriverOffset(i));
    }
    forall k | 2 <= k <= used
      ensures Field(w, k, PY_PART_START) == Field(s, k, PY_PART_START)
    {
      SameField(s, w, k * BLOCK + PY_PART_START);
    }
    WidenedMovedBytes(s, w, r, used, max, inc);
  }

  /** The bytes of block 0 and the used entries that do not move, and the bytes behind the map. */
  lemma WidenedMovedBytes(s: seq<uint8>, w: seq<uint8>, r: seq<uint8>, used: nat, max: nat, inc: nat)
    requires MapOk(s, used, max) && Widened(s, w, used, max, inc)
    requires Moved(w, r, DriverCount(s), Field(s, 1, MAP_BLK_CNT), inc)
    ensures |r| == |s| + inc * BLOCK
    ensures forall j :: 0 <= j < (used + 1) * BLOCK && !Moves(j, DriverCount(s), used) ==> r[j] == s[j]
    ensures forall j :: (max + 1) * BLOCK <= j < |s| ==> r[j + inc * BLOCK] == s[j]
  {
    hide Get16, Get32, Wrap32;
    var entries := Field(s, 1, MAP_BLK_CNT);
    forall j | 0 <= j < (used + 1) * BLOCK && !Moves(j, DriverCount(s), used)
      ensures r[j] == s[j]
    {
      assert !Moves(j, DriverCount(s), entries);
    }
    forall j | (max + 1) * BLOCK <= j < |s|
      ensures r[j + inc * BLOCK] == s[j]
    {
      NoneMoves(j + inc * BLOCK, DriverCount(s), entries);
    }
  }

  lemma NoneMoves(j: nat, drivers: nat, entries: nat)
    requires j >= (entries + 1) * BLOCK && DriverOffset(drivers) <= BLOCK
    ensures entries >= 1 ==> !Moves(j, drivers, entries)
  {
  }

  /** Growing by nothing changes nothing. */
  lemma GrownByNone(s: seq<uint8>, used: nat, max: nat)
    requires MapOk(s, used, max)
    ensures Grown(s, s, used, max, 0)
  {
  }

  // ----- What the predicates above say, one fact at a time

  lemma MapOkFacts(s: seq<uint8>, used: nat, max: nat)
    requires MapOk(s, used, max)
    ensures used <= max < 0x8000_0000 && 2 * BLOCK <= (max + 1) * BLOCK <= |s| && Block0Ok(s)
    ensures (Field(s, 1, MAP_BLK_CNT) + 1) * BLOCK <= |s|
  {
  }

  lemma WidenedFacts(s: seq<uint8>, w: seq<uint8>, used: nat, max: nat, inc: nat)
    requires MapOk(s, used, max) && Widened(s, w, used, max, inc)
    ensures |w| == |s| + inc * BLOCK && DriverCount(w) == DriverCount(s) && Block0Ok(w)
    ensures Field(w, 1, MAP_BLK_CNT) == Field(s, 1, MAP_BLK_CNT) > 0
  {
    SameBlock0(s, w);
    SameField(s, w, BLOCK + MAP_BLK_CNT);
  }

  lemma GrownFacts(s: seq<uint8>, r: seq<uint8>, used: nat, max: nat, inc: nat)
    requires Grown(s, r, used, max, inc)
    ensures MapOk(r, used, max) && |r| == |s| + inc * BLOCK && (max + 1) * BLOCK <= |s|
    ensures forall j :: (max + 1) * BLOCK <= j < |s| ==> r[j + inc * BLOCK] == s[j]
  {
  }

  lemma MapOkKeepsCount(s: seq<uint8>, r: seq<uint8>, v: uint32, used: nat, max: nat)
    requires MapOk(s, used, max) && r == Put32(s, 4, v)
    ensures MapOk(r, used, max)
  {
    SameBlock0(s, r);
    SameField(s, r, BLOCK + MAP_BLK_CNT);
  }
}
