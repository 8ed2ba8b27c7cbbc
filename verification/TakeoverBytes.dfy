/**
 Growing the map and taking over an image, told by the bytes of the map, of the image and of the disk.
 */
module TakeoverBytes {
  import opened Words
  import opened DiskLayout
  import opened ApmBytes
  import opened BigEndian
  import opened ApmGrowth
  import opened ApmImages
  import opened ApmListing
  import opened Takeover
  import opened TakeoverRuns

  /** What the map with `used` of `max` entries in use must look like: the count, its own extent, and a block 0 with its signature and drivers that fit. */
  lemma MapOkIff(s: seq<uint8>, used: nat, max: nat)
    ensures MapOk(s, used, max) <==>
            && 1 <= used <= max < 0x8000_0000 && 512 * max + 512 <= |s|
            && (Get32(s, 516) == used || (Get32(s, 516) == used + 1 <= max))
            && s[0] == 0x45 && s[1] == 0x52 && 18 + 8 * Get16(s, 16) <= Get16(s, 2) && 8 * Get16(s, 16) <= 494
  {
  }

  /** What a growth step by `inc` blocks does to the bytes of block 0 and the map. */
  lemma GrowthOnBytes(s: seq<uint8>, r: seq<uint8>, used: nat, max: nat, inc: nat, k: nat, j: nat)
    requires Grown(s, r, used, max, inc)
    ensures |s| >= 1024 && |r| == |s| + inc * 512 && Get16(r, 16) == Get16(s, 16) && 18 + 8 * Get16(s, 16) <= 512
    ensures Get32(r, 4) == (Get32(s, 4) + inc) % 0x1_0000_0000
    ensures k < Get16(s, 16) ==> Get32(r, 18 + 8 * k) == (Get32(s, 18 + 8 * k) + inc) % 0x1_0000_0000
    ensures Get32(r, 512 + 12) == (Get32(s, 512 + 12) + inc) % 0x1_0000_0000
    ensures Get32(r, 512 + 84) == (Get32(s, 512 + 84) + inc) % 0x1_0000_0000
    ensures 2 <= k <= used ==> (k + 1) * 512 <= |s| && Get32(r, k * 512 + 8) == (Get32(s, k * 512 + 8) + inc) % 0x1_0000_0000
    ensures j < 512 && !(4 <= j < 8) && !(18 <= j < 18 + 8 * Get16(s, 16) && (j - 18) % 8 < 4) ==> r[j] == s[j]
    ensures 512 <= j < 1024 && !(524 <= j < 528) && !(596 <= j < 600) ==> r[j] == s[j]
    ensures 2 <= k <= used && j < 512 && !(8 <= j < 12) ==> r[k * 512 + j] == s[k * 512 + j]
    ensures (max + 1) * 512 <= j < |s| ==> r[j + inc * 512] == s[j]
  {
    hide Get16, Get32, Moves, Block0Ok, MapOk;
    MapOkFacts(s, used, max);
    GrownFacts(s, r, used, max, inc);
    DriversInBlock(s);
    assert DriverOffset(k) == 18 + 8 * k;
    if j < 1024 {
      Unmoved(j, DriverCount(s), used);
    }
    if 2 <= k <= used {
      assert Field(r, k, PY_PART_START) == Wrap32(Field(s, k, PY_PART_START) + inc);
      if j < 512 && !(8 <= j < 12) {
        UnmovedIn(k, j, DriverCount(s), used);
      }
    }
  }

  lemma DriversInBlock(s: seq<uint8>)
    requires |s| >= BLOCK && Block0Ok(s)
    ensures 18 + 8 * Get16(s, 16) <= 512
  {
  }

  lemma Unmoved(j: nat, drivers: nat, entries: nat)
    requires 18 + 8 * drivers <= 512
    ensures j < 512 && !(4 <= j < 8) && !(18 <= j < 18 + 8 * drivers && (j - 18) % 8 < 4) ==> !Moves(j, drivers, entries)
    ensures 512 <= j < 1024 && !(524 <= j < 528) && !(596 <= j < 600) ==> !Moves(j, drivers, entries)
  {
  }

  lemma UnmovedIn(k: nat, j: nat, drivers: nat, entries: nat)
    requires 18 + 8 * drivers <= 512 && k >= 2 && j < 512 && !(8 <= j < 12)
    ensures !Moves(k * 512 + j, drivers, entries)
  {
  }

  /** The new place does not wrap around, and so the entry fits, on a disk with 32-bit block numbers. */
  lemma ExactFits(cb: nat, start: nat, db: nat, len: nat, size: nat)
    requires db <= start && cb + start + len < 0x1_0000_0000_0000_0000 && cb + start - db + len <= size && size / 512 < 0xFFFF_FFFF
    ensures len / 512 < 0xFFFF_FFFF
    ensures len / 512 + (cb + start - db) % 0x1_0000_0000_0000_0000 / 512 < 0xFFFF_FFFF
  {
  }

  /**
   The image's entry `k`, which begins at `at`, is chosen; its partition of `len` bytes from `start` on
   lies in the image, and its place in the stretch and its length are whole blocks.
   */
  ghost predicate Suits(img: seq<uint8>, k: nat, at: nat, start: nat, len: nat) {
    && HoldsMap(img)
    && var blk: nat := Get16(img, 2);
    && at == k * blk && at + 512 <= |img| && Chosen(img, 1, k, blk, Get32(img, blk + 4))
    && start == Get32(img, at + 8) * blk && len == Get32(img, at + 12) * blk && start + len <= |img|
    && (start - DiskBegin(Taken(img), blk, |img|)) % 512 == 0 && len % 512 == 0
  }

  /** Entry `e` of the map shows that partition at `p`, all of it, and says of it what the image's entry says. */
  ghost predicate OnDisk(b: State, e: nat, p: nat, img: seq<uint8>, at: nat, start: nat, len: nat) {
    && |b.disk| > 0 && (e + 1) * 512 <= |b.Map()| && at + 512 <= |img| && start + len <= |img| && p + len <= b.size
    && Get32(b.Map(), e * 512 + 8) * 512 == p && Get32(b.Map(), e * 512 + 12) * 512 == len == Get32(b.Map(), e * 512 + 84) * 512
    && (forall i: nat {:trigger ByteAt(b.disk, i)} :: p <= i < p + len ==> ByteAt(b.disk, i) == img[start + (i - p)])
    && NoGap(b.disk, p, p + len)
    && b.Map()[e * 512..e * 512 + 4] == img[at..at + 4] && b.Map()[e * 512 + 16..e * 512 + 84] == img[at + 16..at + 84]
    && b.Map()[e * 512 + 88..e * 512 + 512] == img[at + 88..at + 512]
  }

  lemma ChosenIsTaken(img: seq<uint8>, k: nat, blk: nat)
    requires HoldsMap(img) && blk == Get16(img, 2) && k * blk + 512 <= |img| && Chosen(img, 1, k, blk, Get32(img, blk + 4))
    ensures At(img, k, blk) in Taken(img)
  {
    hide Taken, Chosen, Get32, Get16, At;
    var ks := TakenExactly(img);
    var i :| 0 <= i < |ks| && ks[i] == k;
    assert Taken(img)[i] == At(img, k, blk);
  }

  lemma SuitsExactly(img: seq<uint8>, k: nat, blk: nat, at: nat, start: nat, len: nat)
    requires Suits(img, k, at, start, len) && blk == Get16(img, 2)
    ensures at == k * blk && at + 512 <= |img|
    ensures At(img, k, blk) in Taken(img) && Exact(At(img, k, blk), blk, |img|, DiskBegin(Taken(img), blk, |img|))
    ensures Begin(At(img, k, blk), blk) == start && Length(At(img, k, blk), blk) == len
  {
    hide Taken, Chosen, Get32, Get16, At, DiskBegin, HoldsMap, DiskEnd;
    ChosenIsTaken(img, k, blk);
    FieldAt(img, k, blk, 8);
    FieldAt(img, k, blk, 12);
    StretchHolds(Taken(img), blk, |img|, At(img, k, blk));
  }

  /** The map entry that was added for it. */
  lemma SuitsListed(a: State, b: State, max: nat, img: seq<uint8>, k: nat, blk: nat, at: nat, start: nat, len: nat) returns (m: nat)
    requires TakenOver(a, b, max, img) && Suits(img, k, at, start, len) && blk == Get16(img, 2) && at == k * blk && at + 512 <= |img|
    requires b.used < max && b.size / 512 < 0xFFFF_FFFF && b.size + |img| < 0x1_0000_0000_0000_0000
    ensures m < |NewEntries(a, max, img)| && m < b.used - a.used
    ensures NewEntries(a, max, img)[m].0 == At(img, k, blk)
    ensures Rewritten(NewEntries(a, max, img)[m].1, img, k, blk, ChunkBegin(a, max, img), DiskBegin(Taken(img), blk, |img|))
  {
    hide Taken, Chosen, Get32, Get16, At, DiskBegin, DiskEnd, NewEntries, ChunkBegin, HoldsMap, Rewritten, Fits, Suits, TakenOver, Begin, Length;
    SuitsChosen(img, k, at, start, len);
    StretchOnDisk(a, b, max, img, blk);
    var cb, db := ChunkBegin(a, max, img), DiskBegin(Taken(img), blk, |img|);
    SuitsExactly(img, k, blk, at, start, len);
    StretchHolds(Taken(img), blk, |img|, At(img, k, blk));
    ExactFits(cb, start, db, len, b.size);
    FitsNumbers(img, k, blk, cb, db, at, start, len);
    var ks := NewEntriesExactly(a, max, img);
    var i :| 0 <= i < |ks| && ks[i] == k;
    m := i;
  }

  lemma SuitsChosen(img: seq<uint8>, k: nat, at: nat, start: nat, len: nat)
    requires Suits(img, k, at, start, len)
    ensures HoldsMap(img) && |img| >= 512 && Get16(img, 2) + 8 <= |img| && Chosen(img, 1, k, Get16(img, 2), Get32(img, Get16(img, 2) + 4))
    ensures at + 512 <= |img| && start == Get32(img, at + 8) * Get16(img, 2) && len == Get32(img, at + 12) * Get16(img, 2)
  {
    hide Taken, Chosen, DiskBegin, Get32, Get16;
  }

  lemma FitsNumbers(img: seq<uint8>, k: nat, blk: nat, cb: nat, db: nat, at: nat, start: nat, len: nat)
    requires at == k * blk && at + 512 <= |img| && start == Get32(img, at + 8) * blk && len == Get32(img, at + 12) * blk
    requires len / 512 < 0xFFFF_FFFF && len / 512 + (cb + start - db) % 0x1_0000_0000_0000_0000 / 512 < 0xFFFF_FFFF
    ensures Fits(img, k, blk, cb, db)
  {
    hide Get32;
  }

  /** Where the stretch ends, and that no entry was dropped when the map is not full. */
  lemma StretchOnDisk(a: State, b: State, max: nat, img: seq<uint8>, blk: nat)
    requires TakenOver(a, b, max, img) && blk == Get16(img, 2)
    ensures HoldsMap(img) && |img| >= 512
    ensures ChunkBegin(a, max, img) + DiskEnd(Taken(img), blk, |img|) - DiskBegin(Taken(img), blk, |img|) <= b.size
    ensures a.size <= ChunkBegin(a, max, img) <= b.size
    ensures b.used < max ==> b.used - a.used == |NewEntries(a, max, img)|
  {
    hide Taken, Placed, DiskBegin, DiskEnd, Laid, MapOk, NewListed, OldMoved, KeptBytes, ShowsBytes, Contiguous, Growth, Get16, Get32;
  }

  /**
   An entry of the image that suits is on the disk: as long as the map is not full and the block
   numbers fit 32 bits, one of the new entries shows its partition, behind everything there was.
   */
  lemma ImageOnDisk(a: State, b: State, max: nat, img: seq<uint8>, k: nat, at: nat, start: nat, len: nat) returns (e: nat, p: nat)
    requires TakenOver(a, b, max, img) && Suits(img, k, at, start, len)
    requires b.used < max && b.size / 512 < 0xFFFF_FFFF && b.size + |img| < 0x1_0000_0000_0000_0000
    ensures a.used < e <= b.used && a.size <= p && OnDisk(b, e, p, img, at, start, len)
  {
    hide Taken, Get32, Get16, At, DiskBegin, DiskEnd, NewEntries, ChunkBegin, HoldsMap, Rewritten, Suits, TakenOver, Begin, Length, ShowsBytes, OnDisk;
    SuitsChosen(img, k, at, start, len);
    var blk: nat := Get16(img, 2);
    SuitsExactly(img, k, blk, at, start, len);
    StretchOnDisk(a, b, max, img, blk);
    var m := SuitsListed(a, b, max, img, k, blk, at, start, len);
    RelocationExact(a, b, max, img, m);
    NewEntryShown(a, b, max, img, m);
    e := a.used + 1 + m;
    p := Get32(b.Map(), e * 512 + 8) * 512;
    EntryOnDisk(b, e, p, NewEntries(a, max, img)[m].1, img, k, blk, ChunkBegin(a, max, img), DiskBegin(Taken(img), blk, |img|), at, start, len);
  }

  lemma EntryOnDisk(b: State, e: nat, p: nat, r: Entry, img: seq<uint8>, k: nat, blk: nat, cb: nat, db: nat, at: nat, start: nat, len: nat)
    requires |b.disk| > 0 && Listed(b.Map(), e, r) && Rewritten(r, img, k, blk, cb, db) && at == k * blk
    requires p == Field(b.Map(), e, PY_PART_START) * 512 && Field(b.Map(), e, PART_BLK_CNT) * 512 == len && p + len <= b.size
    requires ShowsBytes(b.disk, p, img, start, len)
    ensures OnDisk(b, e, p, img, at, start, len)
  {
    hide Get32, ByteAt, Covered, NewPlace;
    var map_ := b.Map();
    assert forall j :: 0 <= j < 512 && !(4 <= j < 8) ==> map_[e * 512 + j] == r[j];
    assert map_[e * 512..e * 512 + 4] == r[0..4] == img[at..at + 4];
    assert map_[e * 512 + 16..e * 512 + 84] == r[16..84] == img[at + 16..at + 84];
    assert map_[e * 512 + 88..e * 512 + 512] == r[88..512] == img[at + 88..at + 512];
    SameBytes(map_, e * 512 + 84, r, 84);
  }

  lemma SameBytes(s: seq<uint8>, o: nat, r: seq<uint8>, q: nat)
    requires o + 4 <= |s| && q + 4 <= |r| && s[o] == r[q] && s[o + 1] == r[q + 1] && s[o + 2] == r[q + 2] && s[o + 3] == r[q + 3]
    ensures Get32(s, o) == Get32(r, q)
  {
  }

  /** After any run that partition is among those that the run keeps, and so it can be read. */
  lemma ImageInRun(states: seq<State>, srcs: seq<Source>, max: nat, i: nat, img: seq<uint8>, k: nat, at: nat, start: nat, len: nat)
    returns (x: Added)
    requires Run(states, srcs, max) && i < |srcs| && srcs[i] == Partitions(img) && Suits(img, k, at, start, len)
    requires states[i + 1].used < max && states[i + 1].size / 512 < 0xFFFF_FFFF
    requires states[i + 1].size + |img| < 0x1_0000_0000_0000_0000
    ensures x in Ledger(states, srcs, max) && x.step == i && x.img == img && x.from == start && x.len == len
  {
    hide Ledger, Taken, Get32, Get16, At, DiskBegin, NewEntries, ChunkBegin, HoldsMap, Rewritten, TakenOver, Begin, Length, Suits;
    SuitsChosen(img, k, at, start, len);
    var a, b, blk: nat := states[i], states[i + 1], Get16(img, 2);
    SuitsExactly(img, k, blk, at, start, len);
    assert StepAt(states, srcs, max, i);
    var m := SuitsListed(a, b, max, img, k, blk, at, start, len);
    x := LedgerComplete(states, srcs, max, i, m);
  }

  /** Byte `i` of a text field of 32 bytes: that of the text up to its first zero, and zeros behind. */
  function TextAt(text: seq<uint8>, i: nat): uint8 {
    if i < |text| && 0 !in text[..i] then text[i] else 0
  }

  /**
   A single volume, if the map has room and the block numbers fit: the last entry carries the signature,
   the two texts, the place and length in blocks, and the disk shows the whole image there.
   */
  lemma VolumeOnDisk(a: State, r: State, m2: seq<uint8>, b: State, max: nat, bytes: seq<uint8>, partType: seq<uint8>, name: seq<uint8>, i: nat)
    requires VolumeVia(a, r, m2, b, max, Volume(bytes, partType, name)) && VolumeFits(|bytes|, r.size) && a.used < max && i < 32
    ensures |b.disk| > 0 && b.used == a.used + 1 && (b.used + 1) * 512 <= |b.Map()|
    ensures var map_, at := b.Map(), b.used * 512;
            && map_[at] == 0x50 && map_[at + 1] == 0x4D
            && map_[at + 16 + i] == TextAt(name, i) && map_[at + 48 + i] == TextAt(partType, i)
            && Get32(map_, at + 8) * 512 == r.size && Get32(map_, at + 12) * 512 == b.size - r.size
            && Get32(map_, at + 84) == Get32(map_, at + 12) && Get32(map_, at + 88) == 0x4000_0033
    ensures NoGap(b.disk, r.size, r.size + |bytes|)
    ensures forall p: nat {:trigger ByteAt(b.disk, p)} :: r.size <= p < r.size + |bytes| ==> ByteAt(b.disk, p) == bytes[p - r.size]
  {
    hide RoomMade, Extended, State.Ok, VolumeEntry, OldMoved, KeptBytes, Contiguous, Get32, BlocksOf, ByteAt, NoGap, ShowsBytes, Listed;
    var src := Volume(bytes, partType, name);
    var e := NewVolume(src, r.size);
    ExtendedFacts(a, r, m2, b, max, [(e, e)], Piece(r.size, bytes));
    MapInDisk(a, max);
    MapInDisk(r, max);
    VolumeFields(partType, name, Wrap32(r.size / 512), Wrap32(BlocksOf(|bytes|)));
    VolumeTexts(partType, name, Wrap32(r.size / 512), Wrap32(BlocksOf(|bytes|)), i);
    VolumeAdded(a, r, m2, b, max, e, Piece(r.size, bytes));
    ListedBytes(b.Map(), b.used, e, i);
    ShowsAll(b.disk, r.size, bytes);
  }

  lemma ListedBytes(map_: seq<uint8>, k: nat, e: Entry, i: nat)
    requires Listed(map_, k, e) && i < 32
    ensures (k + 1) * 512 <= |map_|
    ensures map_[k * 512] == e[0] && map_[k * 512 + 1] == e[1] && map_[k * 512 + 16 + i] == e[16 + i] && map_[k * 512 + 48 + i] == e[48 + i]
    ensures Get32(map_, k * 512 + 8) == Get32(e, 8) && Get32(map_, k * 512 + 12) == Get32(e, 12)
    ensures Get32(map_, k * 512 + 84) == Get32(e, 84) && Get32(map_, k * 512 + 88) == Get32(e, 88)
  {
    hide Get32;
    assert forall o :: 0 <= o < BLOCK && !(4 <= o < 8) ==> map_[k * BLOCK + o] == e[o];
    SameBytes(map_, k * 512 + 8, e, 8);
    SameBytes(map_, k * 512 + 12, e, 12);
    SameBytes(map_, k * 512 + 84, e, 84);
    SameBytes(map_, k * 512 + 88, e, 88);
  }

  lemma ShowsAll(ps: seq<Piece>, from: nat, bytes: seq<uint8>)
    requires ShowsBytes(ps, from, bytes, 0, |bytes|)
    ensures NoGap(ps, from, from + |bytes|)
    ensures forall p: nat {:trigger ByteAt(ps, p)} :: from <= p < from + |bytes| ==> ByteAt(ps, p) == bytes[p - from]
  {
    hide ByteAt, NoGap;
  }
}
