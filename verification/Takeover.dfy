/**
 What taking over the partitions of an image means for the virtual disk as a whole: the partitions
 there were keep their contents, and every new entry leads to the bytes its partition has in the
 image.
 */
module Takeover {
  import opened Words
  import opened DiskLayout
  import opened ApmBytes
  import opened BigEndian
  import opened ApmGrowth
  import opened ApmEntries
  import opened ApmImages

  function RoundUp(n: nat): nat {
    (n + 512 - 1) / 512 * 512
  }

  /** What block 0 says about the size of the disk: all ones when it takes more than 32 bits. */
  function BlocksFor(size: nat): uint32 {
    if size / 512 < TWO_32 then size / 512 else 0xFFFF_FFFF
  }

  function Min(a: int, b: int): int { if a < b then a else b }

  /** The entries added so far, as many as fit, and one more if it fits. */
  lemma OneMoreAppended(m0: seq<uint8>, before: seq<uint8>, now: seq<uint8>, used: nat, max: nat, es: seq<Entry>, e: Entry)
    requires used <= max && Appended(m0, before, used, es[..Min(|es|, max - used)])
    requires Appended(before, now, used + Min(|es|, max - used), if used + Min(|es|, max - used) < max then [e] else [])
    ensures Appended(m0, now, used, (es + [e])[..Min(|es| + 1, max - used)])
  {
    hide Appended;
    var n := Min(|es|, max - used);
    var all := es + [e];
    if used + n < max {
      AppendedMore(m0, before, now, used, es[..n], e);
      assert all[..n + 1] == es[..n] + [e];
    } else {
      AppendedNothing(before, now, used + n);
      assert all[..n] == es[..n];
    }
  }

  /** A virtual disk whose first piece holds the map, with its size and the number of used entries. */
  datatype State = State(disk: seq<Piece>, size: nat, used: nat) {
    function Map(): seq<uint8>
      requires |disk| > 0
    {
      disk[0].bytes
    }

    ghost predicate Ok(max: nat) {
      && |disk| > 0 && disk[0].begin == 0 && Laid(disk) && Size(disk) <= size && size % 512 == 0
      && MapOk(Map(), used, max)
    }
  }

  /** Entry `k` of the map says what `e` says, apart from the count. */
  ghost predicate Listed(map_: seq<uint8>, k: nat, e: Entry) {
    && (k + 1) * BLOCK <= |map_|
    && Field(map_, k, PY_PART_START) == Start(e) && Field(map_, k, PART_BLK_CNT) == Blocks(e)
    && forall o :: 0 <= o < BLOCK && !(4 <= o < 8) ==> map_[k * BLOCK + o] == e[o]
  }

  /** Where the chunk of the image goes: behind the disk, once the map has grown. */
  function ChunkBegin(a: State, max: nat, img: seq<uint8>): nat
    requires HoldsMap(img)
  {
    a.size + Growth(a.used, max, |Taken(img)|) * BLOCK
  }

  function NewEntries(a: State, max: nat, img: seq<uint8>): (placed: seq<(Entry, Entry)>)
    requires HoldsMap(img)
  {
    var es, blk := Taken(img), BlockSize(img);
    Placed(es, blk, ChunkBegin(a, max, img), DiskBegin(es, blk, |img|))
  }

  /** The first `n` of the new entries follow the `used` ones. */
  ghost predicate NewListed(map_: seq<uint8>, used: nat, placed: seq<(Entry, Entry)>, n: nat)
    requires n <= |placed|
  {
    forall m {:trigger placed[m]} :: 0 <= m < n ==> Listed(map_, used + 1 + m, placed[m].1)
  }

  /** The entries there were keep their sizes and start `inc` blocks later. */
  ghost predicate OldMoved(s: seq<uint8>, r: seq<uint8>, used: nat, inc: nat) {
    forall k :: 2 <= k <= used ==>
      && (k + 1) * BLOCK <= |s| && (k + 1) * BLOCK <= |r|
      && Field(r, k, PY_PART_START) == Wrap32(Field(s, k, PY_PART_START) + inc)
      && Field(r, k, PART_BLK_CNT) == Field(s, k, PART_BLK_CNT)
  }

  /** What was on the disk from `cut` to `size` is now `d` positions higher, and as much of it belongs to a piece. */
  ghost predicate KeptBytes(ps: seq<Piece>, qs: seq<Piece>, cut: nat, size: nat, d: nat) {
    && (forall p: nat {:trigger ByteAt(qs, p)} :: cut + d <= p < size + d ==> ByteAt(qs, p) == ByteAt(ps, p - d))
    && (forall p: nat {:trigger Covered(qs, p)} :: cut + d <= p < size + d ==> Covered(qs, p) == Covered(ps, p - d))
  }

  /** The disk shows `n` bytes of `img`, from `lo` on, at position `from`, without a gap. */
  ghost predicate ShowsBytes(ps: seq<Piece>, from: nat, img: seq<uint8>, lo: nat, n: nat) {
    && lo + n <= |img| && NoGap(ps, from, from + n)
    && forall p: nat {:trigger ByteAt(ps, p)} :: from <= p < from + n ==> ByteAt(ps, p) == img[lo + (p - from)]
  }

  /** `b` is the disk `a` with the partitions of `img` taken over, as far as the map had room for `max` entries. */
  ghost predicate TakenOver(a: State, b: State, max: nat, img: seq<uint8>) {
    && HoldsMap(img) && a.Ok(max) && b.Ok(max)
    && var es, blk := Taken(img), BlockSize(img);
    && var inc := Growth(a.used, max, |es|);
    && var cb, db, de := ChunkBegin(a, max, img), DiskBegin(es, blk, |img|), DiskEnd(es, blk, |img|);
    && var placed := NewEntries(a, max, img);
    && var n := Min(|placed|, max - a.used);
    && db <= de <= |img|
    && b.used == a.used + n && b.size == cb + RoundUp(de - db) && BlockCount(b.Map()) == BlocksFor(b.size)
    && NewListed(b.Map(), a.used, placed, n)
    && OldMoved(a.Map(), b.Map(), a.used, inc)
    && KeptBytes(a.disk, b.disk, (max + 1) * BLOCK, a.size, inc * BLOCK)
    && ShowsBytes(b.disk, cb, img, db, de - db)
    && (Contiguous(b.disk) <==> Contiguous(a.disk) && Size(a.disk) == a.size)
    && (Size(b.disk) == b.size <==> (de - db) % 512 == 0)
  }

  // ----- How the steps of the method make it true

  lemma NewListedAfter(m1: seq<uint8>, m2: seq<uint8>, v: uint32, used: nat, placed: seq<(Entry, Entry)>, n: nat)
    requires n <= |placed| && Appended(m1, m2, used, News(placed)[..n]) && |m2| >= BLOCK
    ensures NewListed(Put32(m2, 4, v), used, placed, n)
  {
    hide Appended, Get32, Put32;
    var m3 := Put32(m2, 4, v);
    AppendedLength(m1, m2, used, News(placed)[..n]);
    forall m | 0 <= m < n
      ensures Listed(m3, used + 1 + m, placed[m].1)
    {
      var k := used + 1 + m;
      AppendedEntry(m1, m2, used, News(placed)[..n], m);
      SameField(m2, m3, k * BLOCK + PY_PART_START);
      SameField(m2, m3, k * BLOCK + PART_BLK_CNT);
    }
  }

  lemma GrownMovesOld(m0: seq<uint8>, m1: seq<uint8>, used: nat, max: nat, inc: nat)
    requires Grown(m0, m1, used, max, inc)
    ensures OldMoved(m0, m1, used, inc)
  {
    hide Get16, Get32, Wrap32;
    forall k | 2 <= k <= used
      ensures (k + 1) * BLOCK <= |m0| <= |m1|
      ensures Field(m1, k, PART_BLK_CNT) == Field(m0, k, PART_BLK_CNT)
    {
      forall j | k * BLOCK + 12 <= j < k * BLOCK + 16
        ensures m1[j] == m0[j]
      {
        Place(k, j - k * BLOCK);
      }
      SameField(m0, m1, k * BLOCK + PART_BLK_CNT);
    }
  }

  lemma OldMovedAfter(m0: seq<uint8>, m1: seq<uint8>, m2: seq<uint8>, v: uint32, used: nat, max: nat, inc: nat, es: seq<Entry>)
    requires Grown(m0, m1, used, max, inc) && Appended(m1, m2, used, es) && used + |es| <= max && |m2| >= BLOCK
    ensures OldMoved(m0, Put32(m2, 4, v), used, inc)
  {
    hide Get32, Put32, Appended, Wrap32, Grown;
    GrownMovesOld(m0, m1, used, max, inc);
    GrownFacts(m0, m1, used, max, inc);
    AppendedKeeps(m1, m2, used, max, es);
    AppendedLength(m1, m2, used, es);
    var m3 := Put32(m2, 4, v);
    forall k | 2 <= k <= used
      ensures (k + 1) * BLOCK <= |m0| <= |m3|
      ensures Field(m3, k, PY_PART_START) == Wrap32(Field(m0, k, PY_PART_START) + inc)
      ensures Field(m3, k, PART_BLK_CNT) == Field(m0, k, PART_BLK_CNT)
    {
      SameField(m2, m3, k * BLOCK + PY_PART_START);
      SameField(m2, m3, k * BLOCK + PART_BLK_CNT);
    }
  }

  /** The bytes behind the map survive the new entries, the new block count and the new chunk, which shows its own. */
  lemma BytesAfter(ps: seq<Piece>, m3: seq<uint8>, w: Piece, cut: nat, p: nat)
    requires Laid(ps) && |ps| > 0 && ps[0].begin == 0 && |m3| == |ps[0].bytes| && Size(ps) <= w.begin
    requires forall j :: cut <= j < |m3| ==> m3[j] == ps[0].bytes[j]
    ensures var qs := ps[0 := Piece(0, m3)] + [w];
            && (cut <= p < w.begin ==> ByteAt(qs, p) == ByteAt(ps, p) && Covered(qs, p) == Covered(ps, p))
            && (w.Covers(p) ==> ByteAt(qs, p) == w.bytes[p - w.begin] && Covered(qs, p))
  {
    hide ByteAt, Laid, Size, Covered;
    FirstReplaced(ps, m3, p);
    PieceAdded(ps[0 := Piece(0, m3)], w, p);
    if cut <= p < |m3| {
      ByteOfPiece(ps, 0, p);
    }
  }

  /** `r` is `a` after the map has made room for `wanted` entries. */
  ghost predicate RoomMade(a: State, r: State, max: nat, wanted: nat) {
    && a.Ok(max) && r.Ok(max)
    && var inc := Growth(a.used, max, wanted);
    && r.size == a.size + inc * BLOCK && r.used == a.used
    && Grown(a.Map(), r.Map(), a.used, max, inc) && MovedUp(a.disk, r.disk, inc * BLOCK)
    && forall p: nat :: p >= (max + 1) * BLOCK ==> ByteAt(r.disk, p + inc * BLOCK) == ByteAt(a.disk, p)
  }

  /** Growing the map keeps what every partition behind it contains, at the position its moved entry names. */
  lemma GrowthKeepsPartitions(a: State, r: State, max: nat, wanted: nat, k: nat, j: nat)
    requires RoomMade(a, r, max, wanted) && 2 <= k <= a.used && (k + 1) * BLOCK <= |a.Map()|
    requires var inc, start := Growth(a.used, max, wanted), Field(a.Map(), k, PY_PART_START);
             start + inc < TWO_32 && (max + 1) * BLOCK <= start * 512
    ensures (k + 1) * BLOCK <= |r.Map()|
    ensures Field(r.Map(), k, PY_PART_START) == Field(a.Map(), k, PY_PART_START) + Growth(a.used, max, wanted)
    ensures ByteAt(r.disk, Field(r.Map(), k, PY_PART_START) * 512 + j) == ByteAt(a.disk, Field(a.Map(), k, PY_PART_START) * 512 + j)
    ensures Covered(r.disk, Field(r.Map(), k, PY_PART_START) * 512 + j) == Covered(a.disk, Field(a.Map(), k, PY_PART_START) * 512 + j)
  {
    hide ByteAt, Get32, Laid, MapOk, Growth, Covered;
    var p := Field(a.Map(), k, PY_PART_START) * 512 + j;
    assert p >= (max + 1) * BLOCK;
    MovedUpCovered(a.disk, r.disk, Growth(a.used, max, wanted) * BLOCK, p);
  }

  /** The driver map still names the blocks of the drivers, and block 0 the number of blocks. */
  lemma GrowthKeepsDrivers(a: State, r: State, max: nat, wanted: nat, i: nat, j: nat)
    requires RoomMade(a, r, max, wanted) && |a.Map()| >= BLOCK && i < DriverCount(a.Map()) && DriverOffset(i) + 8 <= BLOCK
    requires var inc, block := Growth(a.used, max, wanted), Get32(a.Map(), DriverOffset(i));
             block + inc < TWO_32 && (max + 1) * BLOCK <= block * 512
    ensures |r.Map()| >= BLOCK && DriverCount(r.Map()) == DriverCount(a.Map())
    ensures ByteAt(r.disk, Get32(r.Map(), DriverOffset(i)) * 512 + j) == ByteAt(a.disk, Get32(a.Map(), DriverOffset(i)) * 512 + j)
    ensures Covered(r.disk, Get32(r.Map(), DriverOffset(i)) * 512 + j) == Covered(a.disk, Get32(a.Map(), DriverOffset(i)) * 512 + j)
    ensures BlockCount(a.Map()) * 512 == a.size ==> BlockCount(r.Map()) == Wrap32(r.size / 512)
  {
    hide ByteAt, Get32, Laid, MapOk, Growth, Covered;
    var p := Get32(a.Map(), DriverOffset(i)) * 512 + j;
    assert p >= (max + 1) * BLOCK;
    MovedUpCovered(a.disk, r.disk, Growth(a.used, max, wanted) * BLOCK, p);
  }

  /** `b` is `r` with entries added, which makes the map `m2`, and then the piece `w` appended. */
  ghost predicate Extended(r: State, m2: seq<uint8>, b: State, max: nat, placed: seq<(Entry, Entry)>, w: Piece) {
    && r.Ok(max) && b.Ok(max) && |m2| >= BLOCK && w.begin == r.size
    && var n := Min(|placed|, max - r.used);
    && b.used == r.used + n && b.size == r.size + RoundUp(|w.bytes|)
    && Appended(r.Map(), m2, r.used, News(placed)[..n])
    && b.disk == r.disk[0 := Piece(0, Put32(m2, 4, BlocksFor(b.size)))] + [w]
  }

  /** What was on the disk is kept while room is made and a piece is appended, and the piece is shown. */
  lemma RoomAndPiece(a: State, r: State, m2: seq<uint8>, b: State, max: nat, wanted: nat, placed: seq<(Entry, Entry)>, w: Piece)
    requires RoomMade(a, r, max, wanted) && Extended(r, m2, b, max, placed, w)
    ensures var inc := Growth(a.used, max, wanted);
            && OldMoved(a.Map(), b.Map(), a.used, inc)
            && KeptBytes(a.disk, b.disk, (max + 1) * BLOCK, a.size, inc * BLOCK)
    ensures ShowsBytes(b.disk, w.begin, w.bytes, 0, |w.bytes|)
    ensures BlockCount(b.Map()) == BlocksFor(b.size)
    ensures NewListed(b.Map(), a.used, placed, Min(|placed|, max - a.used))
  {
    hide Appended, Grown, MovedUp, Put32, Get32, Laid, ByteAt, Covered, MapOk, NewListed, OldMoved, Growth, RoundUp;
    var inc := Growth(a.used, max, wanted);
    MapOkFacts(a.Map(), a.used, max);
    MapOkFacts(r.Map(), r.used, max);
    var n := Min(|placed|, max - a.used);
    var news := News(placed)[..n];
    var v := BlocksFor(b.size);
    AppendedLength(r.Map(), m2, a.used, news);
    AppendedKeeps(r.Map(), m2, a.used, max, news);
    PutGet(m2, 4, v);
    NewListedAfter(r.Map(), m2, v, a.used, placed, n);
    OldMovedAfter(a.Map(), r.Map(), m2, v, a.used, max, inc, news);
    forall p: nat | (max + 1) * BLOCK + inc * BLOCK <= p < a.size + inc * BLOCK
      ensures ByteAt(b.disk, p) == ByteAt(a.disk, p - inc * BLOCK) && Covered(b.disk, p) == Covered(a.disk, p - inc * BLOCK)
    {
      var q := p - inc * BLOCK;
      assert ByteAt(r.disk, q + inc * BLOCK) == ByteAt(a.disk, q);
      MovedUpCovered(a.disk, r.disk, inc * BLOCK, q);
      BytesAfter(r.disk, b.Map(), w, (max + 1) * BLOCK, p);
    }
    forall p: nat | w.begin <= p < w.begin + |w.bytes|
      ensures ByteAt(b.disk, p) == w.bytes[p - w.begin] && Covered(b.disk, p)
    {
      BytesAfter(r.disk, b.Map(), w, (max + 1) * BLOCK, p);
    }
  }

  /** Contiguity, and ending on the size, after both. */
  lemma ContiguousAfter(a: State, r: State, m2: seq<uint8>, b: State, max: nat, wanted: nat, placed: seq<(Entry, Entry)>, w: Piece)
    requires RoomMade(a, r, max, wanted) && Extended(r, m2, b, max, placed, w)
    ensures Contiguous(b.disk) <==> Contiguous(a.disk) && Size(a.disk) == a.size
    ensures Size(b.disk) == b.size <==> |w.bytes| % 512 == 0
  {
    hide Appended, Grown, MovedUp, Put32, Get32, Laid, ByteAt, Contiguous, MapOk, Growth, RoundUp;
    MovedUpLaid(a.disk, r.disk, Growth(a.used, max, wanted) * BLOCK);
    GapIff(r, m2, b, max, placed, w);
  }

  /** Both steps together take over the image. */
  lemma TakeoverHolds(a: State, r: State, m2: seq<uint8>, b: State, max: nat, img: seq<uint8>)
    requires HoldsMap(img) && RoomMade(a, r, max, |Taken(img)|)
    requires var es, blk := Taken(img), BlockSize(img);
             var db, de := DiskBegin(es, blk, |img|), DiskEnd(es, blk, |img|);
             db <= de <= |img| && Extended(r, m2, b, max, NewEntries(a, max, img), Piece(r.size, img[db..de]))
    ensures TakenOver(a, b, max, img)
  {
    hide Appended, Grown, MovedUp, Put32, Get32, Laid, ByteAt, NoGap, Contiguous, MapOk, Taken, Placed, NewListed, OldMoved, KeptBytes, Growth, DiskBegin, DiskEnd, RoundUp;
    var es, blk := Taken(img), BlockSize(img);
    var db, de := DiskBegin(es, blk, |img|), DiskEnd(es, blk, |img|);
    var w := Piece(r.size, img[db..de]);
    RoomAndPiece(a, r, m2, b, max, |es|, NewEntries(a, max, img), w);
    ContiguousAfter(a, r, m2, b, max, |es|, NewEntries(a, max, img), w);
    forall p: nat | r.size <= p < r.size + (de - db)
      ensures ByteAt(b.disk, p) == img[db + (p - r.size)]
    {
      assert ByteAt(b.disk, p) == w.bytes[p - r.size];
    }
  }

  // ----- What it means for the partitions

  /**
   Relocation is exact: the entry of a partition that was in range, and whose place and length are
   whole blocks, leads to the very bytes the partition has in its image, behind everything that
   was on the disk before and within the new size.
   */
  lemma RelocationExact(a: State, b: State, max: nat, img: seq<uint8>, m: nat)
    requires TakenOver(a, b, max, img) && m < b.used - a.used
    requires var es, blk := Taken(img), BlockSize(img);
             Exact(NewEntries(a, max, img)[m].0, blk, |img|, DiskBegin(es, blk, |img|))
    requires ChunkBegin(a, max, img) + |img| < TWO_64
    ensures var e, blk, k := NewEntries(a, max, img)[m].0, BlockSize(img), a.used + 1 + m;
            && (k + 1) * BLOCK <= |b.Map()|
            && var start, blocks := Field(b.Map(), k, PY_PART_START), Field(b.Map(), k, PART_BLK_CNT);
            && blocks * 512 == Length(e, blk) && start + blocks < LIMIT
            && start * 512 == ChunkBegin(a, max, img) + Begin(e, blk) - DiskBegin(Taken(img), blk, |img|)
            && ChunkBegin(a, max, img) <= start * 512 && start * 512 + blocks * 512 <= b.size
            && ShowsBytes(b.disk, start * 512, img, Begin(e, blk), Length(e, blk))
  {
    hide TakenOver, ByteAt, Get32, Begin, Length, DiskBegin, DiskEnd, NewEntries, ChunkBegin, Taken;
    NewEntryShown(a, b, max, img, m);
    NewEntryExact(a, max, img, m);
    var e, blk := NewEntries(a, max, img)[m].0, BlockSize(img);
    var cb, db := ChunkBegin(a, max, img), DiskBegin(Taken(img), blk, |img|);
    ShowsPart(b.disk, cb, img, db, DiskEnd(Taken(img), blk, |img|) - db, Begin(e, blk), Length(e, blk));
  }

  /** What the takeover says about one new entry, and about the stretch of the image. */
  lemma NewEntryShown(a: State, b: State, max: nat, img: seq<uint8>, m: nat)
    requires TakenOver(a, b, max, img) && m < b.used - a.used
    ensures |b.disk| > 0 && HoldsMap(img) && |img| >= BLOCK && m < |NewEntries(a, max, img)| && a.size % 512 == 0
    ensures Listed(b.Map(), a.used + 1 + m, NewEntries(a, max, img)[m].1)
    ensures var es, blk := Taken(img), BlockSize(img);
            var db, de := DiskBegin(es, blk, |img|), DiskEnd(es, blk, |img|);
            db <= de <= |img| && ChunkBegin(a, max, img) + (de - db) <= b.size
            && ShowsBytes(b.disk, ChunkBegin(a, max, img), img, db, de - db)
  {
    hide ByteAt, Get32, Taken, Placed, DiskBegin, DiskEnd, Laid, MapOk, OldMoved, KeptBytes, Growth, Listed, ShowsBytes;
    assert Listed(b.Map(), a.used + 1 + m, NewEntries(a, max, img)[m].1);
  }

  /** What the new entry of an exact partition says. */
  lemma NewEntryExact(a: State, max: nat, img: seq<uint8>, m: nat)
    requires HoldsMap(img) && |img| >= BLOCK && m < |NewEntries(a, max, img)| && a.size % 512 == 0
    requires Exact(NewEntries(a, max, img)[m].0, BlockSize(img), |img|, DiskBegin(Taken(img), BlockSize(img), |img|))
    requires ChunkBegin(a, max, img) + |img| < TWO_64
    ensures var es, blk, (e, r) := Taken(img), BlockSize(img), NewEntries(a, max, img)[m];
            var cb, db := ChunkBegin(a, max, img), DiskBegin(es, blk, |img|);
            && Start(r) * 512 == cb + Begin(e, blk) - db && Blocks(r) * 512 == Length(e, blk)
            && Start(r) + Blocks(r) < LIMIT
            && db <= Begin(e, blk) && Begin(e, blk) + Length(e, blk) <= DiskEnd(es, blk, |img|)
  {
    hide Get32, Taken, Placed, Begin, Length, Relocated, DiskBegin, DiskEnd, Growth, NewBlocks, NewStart, Start, Blocks;
    var es, blk := Taken(img), BlockSize(img);
    var cb, db := ChunkBegin(a, max, img), DiskBegin(es, blk, |img|);
    PlacedFrom(es, blk, cb, db, m);
    var (e, r) := NewEntries(a, max, img)[m];
    StretchHolds(es, blk, |img|, e);
    WholeBlocksAdd(a.size, Growth(a.used, max, |es|));
    RelocatedPosition(es, blk, |img|, cb, e);
    RelocatedFields(e, blk, cb, db);
  }

  lemma ShowsPart(ps: seq<Piece>, from: nat, img: seq<uint8>, lo: nat, n: nat, lo2: nat, n2: nat)
    requires ShowsBytes(ps, from, img, lo, n) && lo <= lo2 && lo2 + n2 <= lo + n
    ensures ShowsBytes(ps, from + lo2 - lo, img, lo2, n2)
  {
    hide ByteAt, Covered;
    forall p: nat | from + lo2 - lo <= p < from + lo2 - lo + n2
      ensures ByteAt(ps, p) == img[lo2 + (p - (from + lo2 - lo))]
    {
      assert ByteAt(ps, p) == img[lo + (p - from)];
    }
  }

  lemma WholeBlocksAdd(size: nat, blocks: nat)
    requires size % 512 == 0
    ensures (size + blocks * BLOCK) % 512 == 0
  {
  }

  /** The partitions there were keep their contents at the position their moved entry now names. */
  lemma OldPartitionsKept(a: State, b: State, max: nat, img: seq<uint8>, k: nat, j: nat)
    requires TakenOver(a, b, max, img) && 2 <= k <= a.used && (k + 1) * BLOCK <= |a.Map()|
    requires var inc, start := Growth(a.used, max, |Taken(img)|), Field(a.Map(), k, PY_PART_START);
             && start + inc < TWO_32 && (max + 1) * BLOCK <= start * 512 && start * 512 + j < a.size
    ensures (k + 1) * BLOCK <= |b.Map()|
    ensures ByteAt(b.disk, Field(b.Map(), k, PY_PART_START) * 512 + j) == ByteAt(a.disk, Field(a.Map(), k, PY_PART_START) * 512 + j)
    ensures Covered(b.disk, Field(b.Map(), k, PY_PART_START) * 512 + j) == Covered(a.disk, Field(a.Map(), k, PY_PART_START) * 512 + j)
  {
    hide ByteAt, Covered, Get32, Taken, Placed, Laid, MapOk, NewListed, ShowsBytes, Contiguous, Growth;
  }

  /**
   Growing the map does not raise the limit for entries: entries are dropped exactly when they exceed
   the room declared at the start, and then the grown map has room for all of them and eight more.
   */
  lemma EntriesDroppedIff(a: State, b: State, max: nat, img: seq<uint8>)
    requires TakenOver(a, b, max, img)
    ensures b.used < a.used + |NewEntries(a, max, img)| <==> a.used + |NewEntries(a, max, img)| > max
    ensures b.used < a.used + |NewEntries(a, max, img)| ==>
              b.used == max < a.used + |NewEntries(a, max, img)| <= max + Growth(a.used, max, |Taken(img)|) - MIN_UNUSED
  {
    hide Placed, Growth, Taken, MapOk, NewListed, OldMoved, KeptBytes, ShowsBytes, Laid;
    var es, blk := Taken(img), BlockSize(img);
    MapOkFacts(a.Map(), a.used, max);
    PlacedCount(es, blk, ChunkBegin(a, max, img), DiskBegin(es, blk, |img|));
    GrowthFits(a.used, max, |es|);
  }

  // An example of such a loss: a full map of two entries, and an image with one partition.

  function FullMap(): seq<uint8> {
    seq(1536, i requires 0 <= i < 1536 => if i == 0 then 0x45 else if i == 1 then 0x52 else if i == 2 || i == 519 then 2 else 0)
  }

  function OnePartition(): seq<uint8> {
    seq(1024, i requires 0 <= i < 1024 =>
      if i == 2 then 2 else if i == 512 then 0x50 else if i == 513 then 0x4D
      else if i == 519 || i == 527 then 1 else if i == 560 then 0x41 else 0)
  }

  lemma ShortTypeWanted(e: Entry)
    requires e[48] == 0x41 && e[49] == 0
    ensures Wanted(e)
  {
    var t := e[PAR_TYPE..PAR_TYPE + 32];
    assert t[1..][0] == 0;
    assert CString(t) == [0x41] + CString(t[1..]) == [0x41];
  }

  lemma OnePartitionTaken(e: Entry)
    requires e == OnePartition()[512..1024]
    ensures HoldsMap(OnePartition()) && BlockSize(OnePartition()) == 512 && Taken(OnePartition()) == [e]
    ensures Start(e) == 0 && Blocks(e) == 1 && InRange(e, 512, 1024)
  {
    var img := OnePartition();
    assert EntryAt(img, 1) == e;
    assert Get32(e, MAP_BLK_CNT) == 1;
    ShortTypeWanted(e);
  }

  /** The disk and the image are ones that the operation accepts, and for every outcome the partition is not listed. */
  lemma FullMapDropsPartition(b: State)
    ensures var a, img := State([Piece(0, FullMap())], 1536, 2), OnePartition();
            && a.Ok(2) && HoldsMap(img) && |NewEntries(a, 2, img)| == 1
            && (exists e :: e in Taken(img) && InRange(e, BlockSize(img), |img|))
            && (TakenOver(a, b, 2, img) ==> b.used == 2 && Growth(a.used, 2, 1) == 61)
  {
    var a, img := State([Piece(0, FullMap())], 1536, 2), OnePartition();
    var e: Entry := img[512..1024];
    OnePartitionTaken(e);
    OneEntryPlaced(e);
    assert MapOk(FullMap(), 2, 2);
    if TakenOver(a, b, 2, img) {
      EntriesDroppedIff(a, b, 2, img);
    }
  }

  lemma OneEntryPlaced(e: Entry)
    requires Start(e) == 0 && Blocks(e) == 1
    ensures Growth(2, 2, 1) == 61 && DiskBegin([e], 512, 1024) == 0
    ensures |Placed([e], 512, 1536 + 61 * BLOCK, 0)| == 1
  {
    hide Get32, Relocated;
    assert [e][..0] == [];
    assert Begin(e, 512) == 0 && Length(e, 512) == 512;
    assert Placeable(e, 512, 1536 + 61 * BLOCK, 0);
  }

  /**
   A piece appended to a contiguous disk leaves it contiguous exactly when the disk ended on its
   size, and so does the new disk exactly when the piece is a whole number of blocks long.
   */
  lemma GapIff(r: State, m2: seq<uint8>, b: State, max: nat, placed: seq<(Entry, Entry)>, w: Piece)
    requires Extended(r, m2, b, max, placed, w)
    ensures Contiguous(b.disk) <==> Contiguous(r.disk) && Size(r.disk) == r.size
    ensures Size(b.disk) == b.size <==> |w.bytes| % 512 == 0
  {
    hide Appended, Put32, MapOk, Get32, RoundUp, Laid, Contiguous, ByteAt;
    var m3 := Put32(m2, 4, BlocksFor(b.size));
    var qs := r.disk[0 := Piece(0, m3)];
    MapOkFacts(r.Map(), r.used, max);
    AppendedLength(r.Map(), m2, r.used, News(placed)[..Min(|placed|, max - r.used)]);
    FirstReplaced(r.disk, m3, 0);
    FirstReplaced(qs, r.Map(), 0);
    assert qs[0 := Piece(0, r.Map())] == r.disk;
    PieceAddedLaid(qs, w);
    RoundUpExact(|w.bytes|);
  }

  /**
   Where the gap is: when the last piece is not a whole number of blocks, then after room was made
   for the next image and it was appended, no position from the end of the one to the begin of the
   other belongs to a piece, although the disk goes on behind.
   */
  lemma OddImageLeavesGap(r: State, m2: seq<uint8>, b: State, max: nat, placed: seq<(Entry, Entry)>, w: Piece,
                          r2: State, wanted: nat, m4: seq<uint8>, c: State, placed2: seq<(Entry, Entry)>, w2: Piece)
    requires Extended(r, m2, b, max, placed, w) && RoomMade(b, r2, max, wanted) && Extended(r2, m4, c, max, placed2, w2)
    requires |w.bytes| % 512 != 0
    ensures var end := w.End() + Growth(b.used, max, wanted) * BLOCK;
            && end < w2.begin <= Size(c.disk)
            && (forall p :: end <= p < w2.begin ==> !Covered(c.disk, p))
            && forall lo: nat, hi: nat :: lo <= end < hi ==> !NoGap(c.disk, lo, hi)
  {
    hide Appended, Put32, MapOk, Get32, RoundUp, Laid, Contiguous, ByteAt, Growth, Grown, Covered;
    var inc := Growth(b.used, max, wanted);
    var end := w.End() + inc * BLOCK;
    var i := |c.disk| - 2;
    assert |r.disk| > 0;
    MovedUpAt(b.disk, r2.disk, inc * BLOCK, |b.disk| - 1);
    assert c.disk[i] == r2.disk[|r2.disk| - 1] == w.(begin := w.begin + inc * BLOCK);
    assert c.disk[i + 1] == w2;
    RoundUpMore(|w.bytes|);
    forall p: nat | end <= p < w2.begin
      ensures !Covered(c.disk, p)
    {
      GapBetween(c.disk, i, p);
    }
    assert !Covered(c.disk, end);
  }

  lemma RoundUpMore(n: nat)
    requires n % 512 != 0
    ensures RoundUp(n) > n
  {
  }

  lemma RoundUpExact(n: nat)
    ensures RoundUp(n) == n <==> n % 512 == 0
  {
  }

  /**
   An image of a single volume: if the map has room, its entry names the place where the disk shows
   the image, behind everything that was there; the old partitions are kept.
   */
  lemma VolumeAdded(a: State, r: State, m2: seq<uint8>, b: State, max: nat, e: Entry, w: Piece)
    requires RoomMade(a, r, max, 1) && Extended(r, m2, b, max, [(e, e)], w)
    requires Start(e) == r.size / 512 && Blocks(e) == BlocksOf(|w.bytes|)
    ensures a.used < max ==> b.used == a.used + 1 && Listed(b.Map(), a.used + 1, e)
    ensures Start(e) * 512 == r.size && Start(e) * 512 + Blocks(e) * 512 == b.size
    ensures ShowsBytes(b.disk, Start(e) * 512, w.bytes, 0, |w.bytes|)
    ensures OldMoved(a.Map(), b.Map(), a.used, Growth(a.used, max, 1))
    ensures KeptBytes(a.disk, b.disk, (max + 1) * BLOCK, a.size, Growth(a.used, max, 1) * BLOCK)
    ensures Contiguous(b.disk) <==> Contiguous(a.disk) && Size(a.disk) == a.size
    ensures Size(b.disk) == b.size <==> |w.bytes| % 512 == 0
  {
    hide Appended, Grown, MovedUp, Put32, Get32, Laid, ByteAt, NoGap, Contiguous, MapOk, OldMoved, KeptBytes, Growth;
    RoomAndPiece(a, r, m2, b, max, 1, [(e, e)], w);
    ContiguousAfter(a, r, m2, b, max, 1, [(e, e)], w);
    assert a.used < max ==> [(e, e)][0].1 == e;
  }
}
