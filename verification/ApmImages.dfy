/**
 Taking over the partitions of another disk image, as MetaImgFile::add_partitions_from_image does:
 which entries of its partition map are taken, which stretch of the image they span, and what
 their entries become behind the end of the virtual disk.
 */
module ApmImages {
  import opened Words
  import opened ApmBytes
  import opened BigEndian

  type Entry = e: seq<uint8> | |e| == 512 witness seq(512, _ => 0)

  function Start(e: Entry): uint32 { Get32(e, PY_PART_START) }
  function Blocks(e: Entry): uint32 { Get32(e, PART_BLK_CNT) }

  /** Up to the terminating zero, or the whole field. */
  function CString(s: seq<uint8>): seq<uint8> {
    if s == [] || s[0] == 0 then [] else [s[0]] + CString(s[1..])
  }

  function Ascii(s: string): seq<int> {
    seq(|s|, i requires 0 <= i < |s| => s[i] as int)
  }

  /** Everything but the map itself, drivers, patches and free space. */
  predicate Wanted(e: Entry) {
    var partType := CString(e[PAR_TYPE..PAR_TYPE + 32]);
    && partType != Ascii("Apple_partition_map")
    && partType != Ascii("Apple_Driver43")
    && partType != Ascii("Apple_Driver_ATA")
    && partType != Ascii("Apple_FWDriver")
    && partType != Ascii("Apple_Driver_IOKit")
    && partType != Ascii("Apple_Patches")
    && partType != Ascii("Apple_Void")
  }

  function EntryAt(img: seq<uint8>, k: nat): Entry
    requires |img| >= BLOCK && k * BlockSize(img) + BLOCK <= |img|
  {
    img[k * BlockSize(img)..k * BlockSize(img) + BLOCK]
  }

  /** The image holds its whole partition map. */
  ghost predicate HoldsMap(img: seq<uint8>) {
    && |img| >= BLOCK && BlockSize(img) + BLOCK <= |img|
    && forall k :: 1 <= k <= Get32(EntryAt(img, 1), MAP_BLK_CNT) ==> k * BlockSize(img) + BLOCK <= |img|
  }

  /** The entries taken from entry `k` of `n` on; a wrong signature ends the map. */
  function TakenFrom(img: seq<uint8>, k: nat, n: nat): seq<Entry>
    requires |img| >= BLOCK && k >= 1 && (forall i :: k <= i <= n || i == k ==> i * BlockSize(img) + BLOCK <= |img|)
    decreases n - k
  {
    var e := EntryAt(img, k);
    if Get16(e, 0) != PM_SIG then []
    else (if Wanted(e) then [e] else []) + (if k + 1 > n then [] else TakenFrom(img, k + 1, n))
  }

  /** What is taken from entry `k` on: nothing when its signature is wrong, else it, if wanted, and what follows. */
  lemma TakenStep(img: seq<uint8>, k: nat, n: nat)
    requires HoldsMap(img) && k >= 1 && n == Get32(EntryAt(img, 1), MAP_BLK_CNT) && (k == 1 || k <= n)
    ensures Get16(EntryAt(img, k), 0) != PM_SIG ==> TakenFrom(img, k, n) == []
    ensures Get16(EntryAt(img, k), 0) == PM_SIG ==>
              TakenFrom(img, k, n) == (if Wanted(EntryAt(img, k)) then [EntryAt(img, k)] else []) + TakenAfter(img, k, n)
  {
  }

  function TakenAfter(img: seq<uint8>, k: nat, n: nat): seq<Entry>
    requires |img| >= BLOCK && k >= 1 && (forall i :: k < i <= n ==> i * BlockSize(img) + BLOCK <= |img|)
  {
    if k + 1 > n then [] else TakenFrom(img, k + 1, n)
  }

  lemma NoneAfter(img: seq<uint8>, k: nat, n: nat)
    requires |img| >= BLOCK && k >= 1 && k + 1 > n
    ensures TakenAfter(img, k, n) == []
  {
  }

  lemma MoreAfter(img: seq<uint8>, k: nat, n: nat)
    requires |img| >= BLOCK && k >= 1 && k + 1 <= n && (forall i :: k < i <= n ==> i * BlockSize(img) + BLOCK <= |img|)
    ensures TakenAfter(img, k, n) == TakenFrom(img, k + 1, n)
  {
  }

  function Taken(img: seq<uint8>): seq<Entry>
    requires HoldsMap(img)
  {
    TakenFrom(img, 1, Get32(EntryAt(img, 1), MAP_BLK_CNT))
  }

  // ----- The stretch of the image that is taken over

  function Begin(e: Entry, blk: nat): nat { Start(e) * blk }
  function Length(e: Entry, blk: nat): nat { Blocks(e) * blk }

  predicate InRange(e: Entry, blk: nat, size: nat) {
    Begin(e, blk) <= size && Begin(e, blk) + Length(e, blk) <= size
  }

  /** The least begin of the partitions in range; 2^64 - 1 if there is none. */
  function DiskBegin(es: seq<Entry>, blk: nat, size: nat): nat {
    if es == [] then TWO_64 - 1
    else
      var b, e := DiskBegin(es[..|es| - 1], blk, size), es[|es| - 1];
      if InRange(e, blk, size) && Begin(e, blk) < b then Begin(e, blk) else b
  }

  /** The greatest end of the partitions in range; 0 if there is none. */
  function DiskEnd(es: seq<Entry>, blk: nat, size: nat): nat {
    if es == [] then 0
    else
      var b, e := DiskEnd(es[..|es| - 1], blk, size), es[|es| - 1];
      if InRange(e, blk, size) && Begin(e, blk) + Length(e, blk) > b then Begin(e, blk) + Length(e, blk) else b
  }

  lemma EmptyStretch(blk: nat, size: nat)
    ensures DiskBegin([], blk, size) == TWO_64 - 1 && DiskEnd([], blk, size) == 0
  {
  }

  /** Stretches the extent of `es` over one more entry. */
  method Stretch(ghost es: seq<Entry>, e: Entry, blk: nat, size: nat, diskBegin: nat, diskEnd: nat) returns (newBegin: nat, newEnd: nat)
    requires diskBegin == DiskBegin(es, blk, size) && diskEnd == DiskEnd(es, blk, size)
    ensures newBegin == DiskBegin(es + [e], blk, size) && newEnd == DiskEnd(es + [e], blk, size)
  {
    newBegin, newEnd := diskBegin, diskEnd;
    var partBegin := Begin(e, blk);
    var partEnd := partBegin + Length(e, blk);
    if partBegin > size || partEnd > size {
      // the partition is reported, and taken all the same
    } else {
      if partBegin < diskBegin {
        newBegin := partBegin;
      }
      if partEnd > diskEnd {
        newEnd := partEnd;
      }
    }
    assert (es + [e])[..|es|] == es;
  }

  /** The stretch lies in the image and holds every partition in range. */
  lemma {:induction false} StretchHolds(es: seq<Entry>, blk: nat, size: nat, e: Entry)
    requires e in es && InRange(e, blk, size)
    ensures DiskBegin(es, blk, size) <= Begin(e, blk)
    ensures Begin(e, blk) + Length(e, blk) <= DiskEnd(es, blk, size) <= size
    decreases |es|
  {
    var rest, last := es[..|es| - 1], es[|es| - 1];
    assert es == rest + [last];
    StretchEnd(rest, blk, size);
    if e in rest {
      StretchHolds(rest, blk, size, e);
    }
  }

  lemma {:induction false} StretchEnd(es: seq<Entry>, blk: nat, size: nat)
    ensures DiskEnd(es, blk, size) <= size
    decreases |es|
  {
    if es != [] {
      StretchEnd(es[..|es| - 1], blk, size);
    }
  }

  /** It is no longer than that: one of them begins it and one ends it, unless all of them are empty at its very begin. */
  lemma {:induction false} StretchTight(es: seq<Entry>, blk: nat, size: nat)
    requires (exists e :: e in es && InRange(e, blk, size)) && size < TWO_64 - 1
    ensures exists e :: e in es && InRange(e, blk, size) && Begin(e, blk) == DiskBegin(es, blk, size)
    ensures DiskEnd(es, blk, size) > 0 ==>
              exists e :: e in es && InRange(e, blk, size) && Begin(e, blk) + Length(e, blk) == DiskEnd(es, blk, size)
    decreases |es|
  {
    hide Begin, Length;
    var rest, last := es[..|es| - 1], es[|es| - 1];
    assert es == rest + [last];
    if exists e :: e in rest && InRange(e, blk, size) {
      StretchTight(rest, blk, size);
    } else {
      NoStretch(rest, blk, size);
    }
  }

  /** An image none of whose partitions is in range has no stretch. */
  lemma {:induction false} NoStretch(es: seq<Entry>, blk: nat, size: nat)
    requires forall e :: e in es ==> !InRange(e, blk, size)
    ensures DiskBegin(es, blk, size) == TWO_64 - 1 && DiskEnd(es, blk, size) == 0
    decreases |es|
  {
    hide InRange, Begin, Length;
    if es != [] {
      NoStretch(es[..|es| - 1], blk, size);
    }
  }

  /**
   What the 64-bit arithmetic makes of that: one byte is appended, the one before the shown part of
   the image, and every entry is listed as if the image began one byte after the chunk.
   */
  lemma NoStretchAppendsOneByte(es: seq<Entry>, blk: nat, size: nat, srcOffset: uint64, chunkBegin: nat, e: Entry)
    requires forall f :: f in es ==> !InRange(f, blk, size)
    ensures var begin, end := DiskBegin(es, blk, size), DiskEnd(es, blk, size);
            && Wrap64(end - begin) == 1 && Wrap64(srcOffset + begin) == Wrap64(srcOffset - 1)
            && NewStart(e, blk, chunkBegin, begin) == Wrap64(chunkBegin + 1 + Begin(e, blk)) / 512
  {
    hide Begin;
    NoStretch(es, blk, size);
    WholeTurn(chunkBegin + 1 + Begin(e, blk));
    WholeTurn(srcOffset - 1 + TWO_64);
    WholeTurn(1);
  }

  lemma WholeTurn(x: int)
    ensures Wrap64(x - 0x1_0000_0000_0000_0000) == Wrap64(x)
  {
  }

  // ----- The new entries

  const LIMIT: int := 0xFFFF_FFFF

  function NewBlocks(e: Entry, blk: nat): nat { Length(e, blk) / 512 }

  /** The new first block: the position in the chunk at `chunkBegin` that shows the image from `diskBegin` on. */
  function NewStart(e: Entry, blk: nat, chunkBegin: nat, diskBegin: nat): nat {
    Wrap64(chunkBegin + Begin(e, blk) - diskBegin) / 512
  }

  /** Block numbers have 32 bits; a partition that needs more is skipped. */
  predicate Placeable(e: Entry, blk: nat, chunkBegin: nat, diskBegin: nat) {
    NewBlocks(e, blk) < LIMIT && NewBlocks(e, blk) + NewStart(e, blk, chunkBegin, diskBegin) < LIMIT
  }

  function Relocated(e: Entry, blk: nat, chunkBegin: nat, diskBegin: nat): (r: Entry)
    requires Placeable(e, blk, chunkBegin, diskBegin)
  {
    var start, blocks := NewStart(e, blk, chunkBegin, diskBegin), NewBlocks(e, blk);
    Put32(Put32(Put32(e, PY_PART_START, start), PART_BLK_CNT, blocks), DATA_CNT, blocks)
  }

  /** What a relocated entry says, and that it is the old one otherwise. */
  lemma RelocatedFields(e: Entry, blk: nat, chunkBegin: nat, diskBegin: nat)
    requires Placeable(e, blk, chunkBegin, diskBegin)
    ensures var r := Relocated(e, blk, chunkBegin, diskBegin);
            && Start(r) == NewStart(e, blk, chunkBegin, diskBegin) && Blocks(r) == NewBlocks(e, blk)
            && Get32(r, DATA_CNT) == NewBlocks(e, blk)
            && forall j :: 0 <= j < BLOCK && !(8 <= j < 16) && !(84 <= j < 88) ==> r[j] == e[j]
  {
  }

  /** The placeable ones of the entries, each with its new entry. */
  function Placed(es: seq<Entry>, blk: nat, chunkBegin: nat, diskBegin: nat): seq<(Entry, Entry)> {
    if es == [] then []
    else
      var e := es[|es| - 1];
      Placed(es[..|es| - 1], blk, chunkBegin, diskBegin)
      + if Placeable(e, blk, chunkBegin, diskBegin) then [(e, Relocated(e, blk, chunkBegin, diskBegin))] else []
  }

  lemma {:induction false} PlacedFrom(es: seq<Entry>, blk: nat, chunkBegin: nat, diskBegin: nat, m: nat)
    requires m < |Placed(es, blk, chunkBegin, diskBegin)|
    ensures var (e, r) := Placed(es, blk, chunkBegin, diskBegin)[m];
            e in es && Placeable(e, blk, chunkBegin, diskBegin) && r == Relocated(e, blk, chunkBegin, diskBegin)
    decreases |es|
  {
    var rest := es[..|es| - 1];
    if m < |Placed(rest, blk, chunkBegin, diskBegin)| {
      PlacedFrom(rest, blk, chunkBegin, diskBegin, m);
    }
  }

  /**
   The new entry of a partition in range whose position and length are multiples of 512 bytes
   leads to where the partition is in the chunk: at `chunkBegin` plus its place in the stretch.
   */
  lemma RelocatedPosition(es: seq<Entry>, blk: nat, size: nat, chunkBegin: nat, e: Entry)
    requires e in es && InRange(e, blk, size) && chunkBegin % 512 == 0
    requires var db := DiskBegin(es, blk, size); Placeable(e, blk, chunkBegin, db)
    requires (Begin(e, blk) - DiskBegin(es, blk, size)) % 512 == 0 && Length(e, blk) % 512 == 0
    requires chunkBegin + size < TWO_64
    ensures var db := DiskBegin(es, blk, size);
            var r := Relocated(e, blk, chunkBegin, db);
            && Start(r) * 512 == chunkBegin + Begin(e, blk) - db && Blocks(r) * 512 == Length(e, blk)
            && chunkBegin <= Start(r) * 512 && Start(r) * 512 + Blocks(r) * 512 <= chunkBegin + DiskEnd(es, blk, size) - db
  {
    hide Begin, Length, Start, Blocks, Relocated, DiskBegin, DiskEnd;
    var db := DiskBegin(es, blk, size);
    StretchHolds(es, blk, size, e);
    RelocatedFields(e, blk, chunkBegin, db);
    WholeBlocks(chunkBegin + Begin(e, blk) - db);
    WholeBlocks(Length(e, blk));
  }

  lemma WholeBlocks(x: nat)
    requires x % 512 == 0
    ensures x / 512 * 512 == x
  {
  }

  // ----- The new entries of a whole image, as they appear on the disk

  /** The partition lies in the image, and its place in the stretch and its length are whole blocks of 512 bytes. */
  predicate Exact(e: Entry, blk: nat, size: nat, diskBegin: nat) {
    && InRange(e, blk, size) && diskBegin <= Begin(e, blk)
    && (Begin(e, blk) - diskBegin) % 512 == 0 && Length(e, blk) % 512 == 0
  }

  function News(placed: seq<(Entry, Entry)>): (es: seq<Entry>)
    ensures |es| == |placed| && forall m :: 0 <= m < |es| ==> es[m] == placed[m].1
  {
    seq(|placed|, m requires 0 <= m < |placed| => placed[m].1)
  }

  lemma PlacedNone(es: seq<Entry>, blk: nat, chunkBegin: nat, diskBegin: nat)
    ensures Placed(es[..0], blk, chunkBegin, diskBegin) == []
  {
  }

  lemma PlacedStep(es: seq<Entry>, k: nat, blk: nat, chunkBegin: nat, diskBegin: nat)
    requires k < |es|
    ensures Placed(es[..k + 1], blk, chunkBegin, diskBegin)
         == Placed(es[..k], blk, chunkBegin, diskBegin)
            + if Placeable(es[k], blk, chunkBegin, diskBegin) then [(es[k], Relocated(es[k], blk, chunkBegin, diskBegin))] else []
  {
    assert es[..k + 1][..k] == es[..k];
  }

  lemma {:induction false} PlacedCount(es: seq<Entry>, blk: nat, chunkBegin: nat, diskBegin: nat)
    ensures |Placed(es, blk, chunkBegin, diskBegin)| <= |es|
    decreases |es|
  {
    if es != [] {
      PlacedCount(es[..|es| - 1], blk, chunkBegin, diskBegin);
    }
  }

  // ----- An image of a single volume

  /** A byte of a fixed text field: the text up to its first zero, cut at 32 bytes, then zeros. */
  function TextByte(text: seq<uint8>, i: nat): uint8 {
    var t := CString(text);
    if i < |t| && i < 32 then t[i] else 0
  }

  const PART_STATUS := 0x4000_0033

  /** The entry of a volume: valid, allocated, readable, writable and mounted at startup. */
  function VolumeEntry(partType: seq<uint8>, name: seq<uint8>, start: uint32, blocks: uint32): Entry {
    var base := seq(512, i requires 0 <= i < 512 =>
      if i == 0 then 0x50 else if i == 1 then 0x4D
      else if 16 <= i < 48 then TextByte(name, i - 16)
      else if 48 <= i < 80 then TextByte(partType, i - 48)
      else 0);
    Put32(Put32(Put32(Put32(base, PY_PART_START, start), PART_BLK_CNT, blocks), DATA_CNT, blocks), 88, PART_STATUS)
  }

  /** The text fields hold the name at 16 and the type at 48, as far as 32 bytes go, and zeros behind. */
  lemma VolumeTexts(partType: seq<uint8>, name: seq<uint8>, start: uint32, blocks: uint32, i: nat)
    requires i < 32
    ensures var e := VolumeEntry(partType, name, start, blocks);
            && e[0] == 0x50 && e[1] == 0x4D
            && e[16 + i] == (if i < |name| && 0 !in name[..i] then name[i] else 0)
            && e[48 + i] == (if i < |partType| && 0 !in partType[..i] then partType[i] else 0)
            && (forall k :: 2 <= k < 8 || 80 <= k < 84 || 92 <= k < 512 ==> e[k] == 0)
  {
    CStringByte(name, i);
    CStringByte(partType, i);
  }

  lemma {:induction false} CStringByte(s: seq<uint8>, i: nat)
    ensures i < |CString(s)| <==> i < |s| && 0 !in s[..i + 1]
    ensures i < |CString(s)| ==> CString(s)[i] == s[i]
    decreases |s|
  {
    if s != [] && s[0] != 0 {
      assert i < |s| ==> s[..i + 1] == [s[0]] + s[1..][..i];
      if i > 0 {
        CStringByte(s[1..], i - 1);
      } else {
        assert |s| > 0 ==> s[..1] == [s[0]];
      }
    } else if i < |s| {
      assert s[0] in s[..i + 1];
    }
  }

  lemma VolumeFields(partType: seq<uint8>, name: seq<uint8>, start: uint32, blocks: uint32)
    ensures var e := VolumeEntry(partType, name, start, blocks);
            Get32(e, 8) == start == Start(e) && Get32(e, 12) == blocks == Blocks(e) && Get32(e, 84) == blocks && Get32(e, 88) == 0x4000_0033
  {
  }

  /** Whole blocks that hold `n` bytes. */
  function BlocksOf(n: nat): nat { (n + 512 - 1) / 512 }

  /** Block numbers have 32 bits; a volume that needs more is not added. */
  predicate VolumeFits(size: nat, begin: nat) {
    BlocksOf(size) < LIMIT && BlocksOf(size) + begin / 512 < LIMIT
  }

  /** That is, the number behind its last block is below 2^32 - 1. */
  lemma VolumeFitsIff(size: nat, begin: nat)
    requires begin % 512 == 0
    ensures VolumeFits(size, begin) <==> exists end: nat :: begin + size <= end * 512 < begin + size + 512 && end < 0xFFFF_FFFF
  {
    var end := (begin + size + 511) / 512;
    assert begin + size <= end * 512 < begin + size + 512;
  }
}
