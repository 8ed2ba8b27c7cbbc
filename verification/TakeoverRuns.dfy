/**
 Any number of images added one after the other, partitioned ones and single volumes in any order.
 Every partition that was added exactly keeps its contents at a known position and can be read
 there, partitions of different images never overlap, and all of them end within the disk.
 */
module TakeoverRuns {
  import opened Words
  import opened DiskLayout
  import opened ApmBytes
  import opened BigEndian
  import opened ApmGrowth
  import opened ApmImages
  import opened Takeover

  /** What is opened: a partitioned image, or the image of a volume with the texts of its entry. */
  datatype Source =
    | Partitions(img: seq<uint8>)
    | Volume(bytes: seq<uint8>, partType: seq<uint8>, name: seq<uint8>)

  ghost predicate Readable(src: Source) {
    src.Partitions? ==> HoldsMap(src.img)
  }

  /** A partitioned image without anything to take changes nothing. */
  ghost predicate Empty(src: Source)
    requires Readable(src)
  {
    src.Partitions? && Taken(src.img) == []
  }

  /** The blocks by which the map grows for it. */
  ghost function Inc(a: State, max: nat, src: Source): nat
    requires Readable(src)
  {
    if Empty(src) then 0 else Growth(a.used, max, if src.Volume? then 1 else |Taken(src.img)|)
  }

  /** Where its bytes go. */
  ghost function PlaceFor(a: State, max: nat, src: Source): nat
    requires Readable(src)
  {
    a.size + Inc(a, max, src) * BLOCK
  }

  function NewVolume(src: Source, begin: nat): Entry
    requires src.Volume?
  {
    VolumeEntry(src.partType, src.name, Wrap32(begin / 512), Wrap32(BlocksOf(|src.bytes|)))
  }

  /** The two states of adding a volume: `r` with room made, and `b` in the end. */
  ghost predicate VolumeVia(a: State, r: State, m2: seq<uint8>, b: State, max: nat, src: Source)
    requires src.Volume?
  {
    && RoomMade(a, r, max, 1)
    && var e := NewVolume(src, r.size);
       if VolumeFits(|src.bytes|, r.size) then Extended(r, m2, b, max, [(e, e)], Piece(r.size, src.bytes)) else b == r
  }

  ghost predicate Step(a: State, b: State, max: nat, src: Source) {
    && Readable(src)
    && match src
       case Partitions(img) =>
         if Taken(img) == [] then b == a else TakenOver(a, b, max, img) && ChunkBegin(a, max, img) + |img| < TWO_64
       case Volume(_, _, _) => exists r, m2 :: VolumeVia(a, r, m2, b, max, src)
  }

  ghost predicate Run(states: seq<State>, srcs: seq<Source>, max: nat) {
    && |states| == |srcs| + 1 && states[0].Ok(max)
    && forall i :: 0 <= i < |srcs| ==> StepAt(states, srcs, max, i)
  }

  ghost predicate StepAt(states: seq<State>, srcs: seq<Source>, max: nat, i: nat)
    requires |states| == |srcs| + 1 && i < |srcs|
  {
    Step(states[i], states[i + 1], max, srcs[i])
  }

  /** A partition that was added: from which bytes, where it lies in them, its entry, and its position on the disk now. */
  datatype Added = Added(step: nat, img: seq<uint8>, from: nat, len: nat, entry: nat, pos: nat) {
    /** The end of its last block. */
    function End(): nat { pos + BlocksOf(len) * BLOCK }
  }

  /** The first `n` new entries of a partitioned image, those that are exact. */
  ghost function NewOnes(a: State, max: nat, img: seq<uint8>, step: nat, n: nat): seq<Added>
    requires HoldsMap(img) && n <= |NewEntries(a, max, img)|
  {
    if n == 0 then []
    else
      var e, blk, db := NewEntries(a, max, img)[n - 1].0, BlockSize(img), DiskBegin(Taken(img), BlockSize(img), |img|);
      NewOnes(a, max, img, step, n - 1)
      + if Exact(e, blk, |img|, db)
        then [Added(step, img, Begin(e, blk), Length(e, blk), a.used + n, ChunkBegin(a, max, img) + Begin(e, blk) - db)]
        else []
  }

  /** How many of the new entries the map takes. */
  function Taking(a: State, max: nat, img: seq<uint8>): (n: nat)
    requires HoldsMap(img)
    ensures n <= |NewEntries(a, max, img)|
  {
    if max <= a.used then 0 else Min(|NewEntries(a, max, img)|, max - a.used)
  }

  /** What a step adds. */
  ghost function NewlyAdded(a: State, max: nat, src: Source, step: nat): seq<Added>
    requires Readable(src)
  {
    match src
    case Partitions(img) => if Taken(img) == [] then [] else NewOnes(a, max, img, step, Taking(a, max, img))
    case Volume(bytes, _, _) =>
      if VolumeFits(|bytes|, PlaceFor(a, max, src)) && a.used < max
      then [Added(step, bytes, 0, |bytes|, a.used + 1, PlaceFor(a, max, src))]
      else []
  }

  function MovedOn(xs: seq<Added>, d: nat): (r: seq<Added>)
    ensures |r| == |xs| && forall i :: 0 <= i < |xs| ==> r[i] == xs[i].(pos := xs[i].pos + d)
  {
    seq(|xs|, i requires 0 <= i < |xs| => xs[i].(pos := xs[i].pos + d))
  }

  /** All exact partitions ever added, in order; growing the map moves the earlier ones. */
  ghost function Ledger(states: seq<State>, srcs: seq<Source>, max: nat): seq<Added>
    requires Run(states, srcs, max)
    decreases |srcs|
  {
    if srcs == [] then []
    else
      var n := |srcs| - 1;
      RunPrefix(states, srcs, max);
      RunReadable(states, srcs, max, n);
      MovedOn(Ledger(states[..n + 1], srcs[..n], max), Inc(states[n], max, srcs[n]) * BLOCK) + NewlyAdded(states[n], max, srcs[n], n)
  }

  lemma RunStep(states: seq<State>, srcs: seq<Source>, max: nat, i: nat)
    requires Run(states, srcs, max) && i < |srcs|
    ensures Step(states[i], states[i + 1], max, srcs[i])
  {
    hide Step;
    assert StepAt(states, srcs, max, i);
  }

  lemma RunReadable(states: seq<State>, srcs: seq<Source>, max: nat, i: nat)
    requires Run(states, srcs, max) && i < |srcs|
    ensures Readable(srcs[i])
  {
    hide Readable, TakenOver, VolumeVia, State.Ok, Taken;
    assert StepAt(states, srcs, max, i);
  }

  lemma RunPrefix(states: seq<State>, srcs: seq<Source>, max: nat)
    requires Run(states, srcs, max) && srcs != []
    ensures Run(states[..|srcs|], srcs[..|srcs| - 1], max)
  {
    hide Step;
    var before, first := states[..|srcs|], srcs[..|srcs| - 1];
    forall i | 0 <= i < |first|
      ensures StepAt(before, first, max, i)
    {
      assert StepAt(states, srcs, max, i);
    }
  }

  /** What holds of an added partition on the disk `b`; block numbers have 32 bits. */
  ghost predicate Right(b: State, max: nat, x: Added) {
    && |b.disk| > 0 && 2 <= x.entry <= b.used && (x.entry + 1) * BLOCK <= |b.Map()|
    && x.pos % 512 == 0 && (max + 1) * BLOCK <= x.pos && x.End() <= b.size
    && Field(b.Map(), x.entry, PY_PART_START) == Wrap32(x.pos / 512)
    && Field(b.Map(), x.entry, PART_BLK_CNT) == BlocksOf(x.len)
    && ShowsBytes(b.disk, x.pos, x.img, x.from, x.len)
  }

  // ----- Every step moves what there was

  /** What `a` holds is found `inc` blocks higher on `b`. */
  ghost predicate Shifted(a: State, b: State, max: nat, inc: nat) {
    && a.Ok(max) && b.Ok(max) && a.used <= b.used && a.size + inc * BLOCK <= b.size
    && OldMoved(a.Map(), b.Map(), a.used, inc)
    && KeptBytes(a.disk, b.disk, (max + 1) * BLOCK, a.size, inc * BLOCK)
  }

  lemma StepShifts(a: State, b: State, max: nat, src: Source)
    requires a.Ok(max) && Step(a, b, max, src)
    ensures Shifted(a, b, max, Inc(a, max, src))
  {
    hide TakenOver, RoomMade, Extended, State.Ok, Shifted, Growth, Taken, VolumeEntry, HoldsMap;
    match src
    case Partitions(img) =>
      if Taken(img) == [] {
        NotMoved(a, max);
      } else {
        TakenOverShifts(a, b, max, img);
      }
    case Volume(bytes, _, _) =>
      var r, m2 :| VolumeVia(a, r, m2, b, max, src);
      if VolumeFits(|bytes|, r.size) {
        var e := NewVolume(src, r.size);
        ExtendedShifts(a, r, m2, b, max, 1, [(e, e)], Piece(r.size, bytes));
      } else {
        RoomShifts(a, r, max, 1);
      }
  }

  lemma NotMoved(a: State, max: nat)
    requires a.Ok(max)
    ensures Shifted(a, a, max, 0)
  {
    hide Get32, ByteAt, Covered, Laid, Block0Ok;
  }

  lemma TakenOverShifts(a: State, b: State, max: nat, img: seq<uint8>)
    requires TakenOver(a, b, max, img)
    ensures Shifted(a, b, max, Growth(a.used, max, |Taken(img)|))
  {
    hide Taken, Placed, DiskBegin, DiskEnd, NewListed, OldMoved, KeptBytes, ShowsBytes, Contiguous, Growth, State.Ok;
    UsedGrows(a, b, max, img);
  }

  lemma UsedGrows(a: State, b: State, max: nat, img: seq<uint8>)
    requires TakenOver(a, b, max, img)
    ensures b.used - a.used == Taking(a, max, img)
  {
    hide Placed, Taken, NewListed, OldMoved, KeptBytes, ShowsBytes, Contiguous, Laid;
    MapInDisk(a, max);
  }

  lemma ExtendedShifts(a: State, r: State, m2: seq<uint8>, b: State, max: nat, wanted: nat, placed: seq<(Entry, Entry)>, w: Piece)
    requires RoomMade(a, r, max, wanted) && Extended(r, m2, b, max, placed, w)
    ensures Shifted(a, b, max, Growth(a.used, max, wanted))
  {
    RoomAndPiece(a, r, m2, b, max, wanted, placed, w);
    hide Grown, MovedUp, OldMoved, KeptBytes, ShowsBytes, Growth, State.Ok, Put32;
    MapInDisk(a, max);
  }

  lemma RoomShifts(a: State, r: State, max: nat, wanted: nat)
    requires RoomMade(a, r, max, wanted)
    ensures Shifted(a, r, max, Growth(a.used, max, wanted))
  {
    hide Growth, ByteAt, Covered, Laid, Grown, MapOk, MovedUp, OldMoved;
    var inc := Growth(a.used, max, wanted);
    GrownMovesOld(a.Map(), r.Map(), a.used, max, inc);
    forall p: nat | (max + 1) * BLOCK + inc * BLOCK <= p < a.size + inc * BLOCK
      ensures ByteAt(r.disk, p) == ByteAt(a.disk, p - inc * BLOCK) && Covered(r.disk, p) == Covered(a.disk, p - inc * BLOCK)
    {
      var q := p - inc * BLOCK;
      assert ByteAt(r.disk, q + inc * BLOCK) == ByteAt(a.disk, q);
      MovedUpCovered(a.disk, r.disk, inc * BLOCK, q);
    }
  }

  /** The declared map lies before everything that is appended. */
  lemma MapInDisk(a: State, max: nat)
    requires a.Ok(max)
    ensures |a.disk| > 0 && 1 <= a.used <= max && (max + 1) * BLOCK <= |a.Map()| <= Size(a.disk) <= a.size && a.size % 512 == 0
  {
    hide Block0Ok, Field;
    if |a.disk| > 1 {
      assert a.disk[0].End() <= a.disk[|a.disk| - 1].begin;
    }
  }

  lemma WrapTwice(x: int, y: int)
    ensures Wrap32(Wrap32(x) + y) == Wrap32(x + y)
  {
  }

  lemma BlocksMoved(pos: nat, inc: nat)
    requires pos % 512 == 0
    ensures (pos + inc * BLOCK) % 512 == 0 && (pos + inc * BLOCK) / 512 == pos / 512 + inc
  {
  }

  /** An earlier partition stays right. */
  lemma EarlierStaysRight(a: State, b: State, max: nat, inc: nat, x: Added)
    requires Shifted(a, b, max, inc) && Right(a, max, x)
    ensures Right(b, max, x.(pos := x.pos + inc * BLOCK)) && x.End() + inc * BLOCK <= a.size + inc * BLOCK
  {
    hide ByteAt, Covered, Get32, Laid, Wrap32, KeptBytes, ShowsBytes, MapOk, BlocksOf;
    MapInDisk(b, max);
    BlocksMoved(x.pos, inc);
    WrapTwice(x.pos / 512, inc);
    LenWithinBlocks(x.len);
    StillShown(a.disk, b.disk, (max + 1) * BLOCK, a.size, inc * BLOCK, x);
  }

  lemma StillShown(ps: seq<Piece>, qs: seq<Piece>, cut: nat, size: nat, d: nat, x: Added)
    requires KeptBytes(ps, qs, cut, size, d) && ShowsBytes(ps, x.pos, x.img, x.from, x.len) && cut <= x.pos && x.pos + x.len <= size
    ensures ShowsBytes(qs, x.pos + d, x.img, x.from, x.len)
  {
    hide ByteAt, Covered;
    forall p: nat | x.pos + d <= p < x.pos + d + x.len
      ensures ByteAt(qs, p) == x.img[x.from + (p - (x.pos + d))] && Covered(qs, p)
    {
      assert ByteAt(qs, p) == ByteAt(ps, p - d) && Covered(qs, p) == Covered(ps, p - d);
    }
  }

  lemma LenWithinBlocks(n: nat)
    ensures n <= BlocksOf(n) * BLOCK < n + BLOCK && RoundUp(n) == BlocksOf(n) * BLOCK
    ensures n % 512 == 0 ==> BlocksOf(n) == n / 512
  {
  }

  // ----- Every step adds what is right

  /** A new exact partition is right. */
  lemma NewIsRight(a: State, b: State, max: nat, img: seq<uint8>, step: nat, m: nat)
    requires TakenOver(a, b, max, img) && m < b.used - a.used && ChunkBegin(a, max, img) + |img| < TWO_64
    requires Exact(NewEntries(a, max, img)[m].0, BlockSize(img), |img|, DiskBegin(Taken(img), BlockSize(img), |img|))
    ensures var e, blk, db := NewEntries(a, max, img)[m].0, BlockSize(img), DiskBegin(Taken(img), BlockSize(img), |img|);
            var x := Added(step, img, Begin(e, blk), Length(e, blk), a.used + m + 1, ChunkBegin(a, max, img) + Begin(e, blk) - db);
            Right(b, max, x) && ChunkBegin(a, max, img) <= x.pos
  {
    hide TakenOver, Taken, Begin, Length, DiskBegin, ShowsBytes, NewEntries, ChunkBegin, HoldsMap, Get32, State.Ok, InRange, BlocksOf;
    TakenOverFacts(a, b, max, img);
    MapInDisk(a, max);
    RelocationExact(a, b, max, img, m);
    var e, blk := NewEntries(a, max, img)[m].0, BlockSize(img);
    WholeNumber(Field(b.Map(), a.used + 1 + m, PY_PART_START), ChunkBegin(a, max, img) + Begin(e, blk) - DiskBegin(Taken(img), blk, |img|));
    WholeNumber(Field(b.Map(), a.used + 1 + m, PART_BLK_CNT), Length(e, blk));
    LenWithinBlocks(Length(e, blk));
  }

  lemma WholeNumber(n: uint32, x: int)
    requires n * 512 == x
    ensures x % 512 == 0 && x / 512 == n == Wrap32(x / 512)
  {
  }

  lemma TakenOverFacts(a: State, b: State, max: nat, img: seq<uint8>)
    requires TakenOver(a, b, max, img)
    ensures a.Ok(max) && b.Ok(max) && HoldsMap(img) && |img| >= BLOCK && |b.disk| > 0 && a.size <= ChunkBegin(a, max, img) <= b.size
    ensures b.used - a.used <= |NewEntries(a, max, img)|
  {
    hide Taken, Placed, DiskBegin, DiskEnd, Laid, MapOk, NewListed, OldMoved, KeptBytes, ShowsBytes, Contiguous, Growth;
  }

  lemma {:induction false} NewOnesRight(a: State, b: State, max: nat, img: seq<uint8>, step: nat, n: nat)
    requires TakenOver(a, b, max, img) && n <= b.used - a.used && ChunkBegin(a, max, img) + |img| < TWO_64
    ensures forall x :: x in NewOnes(a, max, img, step, n) ==>
              Right(b, max, x) && x.step == step && ChunkBegin(a, max, img) <= x.pos
    decreases n
  {
    hide Right, Exact, Taken, DiskBegin, Begin, Length, NewEntries, ChunkBegin, HoldsMap, TakenOver;
    TakenOverFacts(a, b, max, img);
    if n > 0 {
      NewOnesRight(a, b, max, img, step, n - 1);
      if Exact(NewEntries(a, max, img)[n - 1].0, BlockSize(img), |img|, DiskBegin(Taken(img), BlockSize(img), |img|)) {
        NewIsRight(a, b, max, img, step, n - 1);
      }
    }
  }

  /** The entry of a volume, when there is room for it, is right. */
  lemma VolumeIsRight(a: State, r: State, m2: seq<uint8>, b: State, max: nat, src: Source, step: nat)
    requires src.Volume? && VolumeVia(a, r, m2, b, max, src) && VolumeFits(|src.bytes|, r.size) && a.used < max
    ensures Right(b, max, Added(step, src.bytes, 0, |src.bytes|, a.used + 1, r.size))
  {
    hide RoomMade, Extended, State.Ok, ShowsBytes, VolumeEntry, OldMoved, KeptBytes, Contiguous, Get32, BlocksOf;
    var e := NewVolume(src, r.size);
    ExtendedFacts(a, r, m2, b, max, [(e, e)], Piece(r.size, src.bytes));
    MapInDisk(a, max);
    MapInDisk(r, max);
    VolumeFields(src.partType, src.name, Wrap32(r.size / 512), Wrap32(BlocksOf(|src.bytes|)));
    VolumeAdded(a, r, m2, b, max, e, Piece(r.size, src.bytes));
    WholeNumber(Wrap32(r.size / 512), r.size);
  }

  lemma ExtendedFacts(a: State, r: State, m2: seq<uint8>, b: State, max: nat, placed: seq<(Entry, Entry)>, w: Piece)
    requires RoomMade(a, r, max, 1) && Extended(r, m2, b, max, placed, w)
    ensures a.Ok(max) && r.Ok(max) && b.Ok(max) && |b.disk| > 0 && a.size <= r.size
  {
  }

  lemma NewsRight(a: State, b: State, max: nat, src: Source, step: nat)
    requires a.Ok(max) && Step(a, b, max, src)
    ensures forall x :: x in NewlyAdded(a, max, src, step) ==> Right(b, max, x) && x.step == step && PlaceFor(a, max, src) <= x.pos
  {
    hide TakenOver, Right, RoomMade, Extended, NewOnes, NewEntries, State.Ok, Growth, Taken, HoldsMap, VolumeEntry;
    match src
    case Partitions(img) =>
      if Taken(img) != [] {
        UsedGrows(a, b, max, img);
        NewOnesRight(a, b, max, img, step, Taking(a, max, img));
      }
    case Volume(bytes, _, _) =>
      var r, m2 :| VolumeVia(a, r, m2, b, max, src);
      RoomSize(a, r, max, 1);
      if VolumeFits(|bytes|, r.size) && a.used < max {
        VolumeIsRight(a, r, m2, b, max, src, step);
      }
  }

  lemma RoomSize(a: State, r: State, max: nat, wanted: nat)
    requires RoomMade(a, r, max, wanted)
    ensures r.size == a.size + Growth(a.used, max, wanted) * BLOCK && r.used == a.used
  {
  }

  // ----- Over a whole run

  /** Later images lie behind earlier ones. */
  ghost predicate InOrder(xs: seq<Added>) {
    forall i, j :: 0 <= i < |xs| && 0 <= j < |xs| && xs[i].step < xs[j].step ==> xs[i].End() <= xs[j].pos
  }

  ghost predicate AllRight(b: State, max: nat, xs: seq<Added>, steps: nat) {
    forall x :: x in xs ==> Right(b, max, x) && x.step < steps
  }

  lemma LedgerGrows(a: State, b: State, max: nat, src: Source, earlier: seq<Added>, step: nat)
    requires a.Ok(max) && Step(a, b, max, src) && AllRight(a, max, earlier, step) && InOrder(earlier)
    ensures var xs := MovedOn(earlier, Inc(a, max, src) * BLOCK) + NewlyAdded(a, max, src, step);
            AllRight(b, max, xs, step + 1) && InOrder(xs)
  {
    hide Right, NewlyAdded, Inc, State.Ok, Shifted, Step, BlocksOf;
    StepReadable(a, b, max, src);
    var inc := Inc(a, max, src);
    var news := NewlyAdded(a, max, src, step);
    var moved := MovedOn(earlier, inc * BLOCK);
    StepShifts(a, b, max, src);
    NewsRight(a, b, max, src, step);
    forall i | 0 <= i < |moved|
      ensures Right(b, max, moved[i]) && moved[i].step < step && moved[i].End() <= PlaceFor(a, max, src)
    {
      assert earlier[i] in earlier;
      EarlierStaysRight(a, b, max, inc, earlier[i]);
    }
    forall i | 0 <= i < |news|
      ensures Right(b, max, news[i]) && news[i].step == step && PlaceFor(a, max, src) <= news[i].pos
    {
      assert news[i] in news;
    }
  }

  lemma StepReadable(a: State, b: State, max: nat, src: Source)
    requires Step(a, b, max, src)
    ensures Readable(src)
  {
  }

  lemma LedgerStep(states: seq<State>, srcs: seq<Source>, max: nat)
    requires Run(states, srcs, max) && srcs != []
    ensures var n := |srcs| - 1;
            && Run(states[..n + 1], srcs[..n], max) && Readable(srcs[n])
            && Ledger(states, srcs, max) ==
               MovedOn(Ledger(states[..n + 1], srcs[..n], max), Inc(states[n], max, srcs[n]) * BLOCK) + NewlyAdded(states[n], max, srcs[n], n)
    ensures Step(states[|srcs| - 1], states[|srcs|], max, srcs[|srcs| - 1])
  {
    hide Step, NewlyAdded, Inc;
    RunPrefix(states, srcs, max);
    assert StepAt(states, srcs, max, |srcs| - 1);
    StepReadable(states[|srcs| - 1], states[|srcs|], max, srcs[|srcs| - 1]);
  }

  /**
   After any sequence of images every exact partition ever added shows the bytes it has in its
   image, without a gap; its entry names its position as far as 32 bits go, and partitions of
   different images do not overlap.
   */
  lemma {:induction false} RunKeepsAll(states: seq<State>, srcs: seq<Source>, max: nat)
    requires Run(states, srcs, max)
    ensures states[|srcs|].Ok(max)
    ensures AllRight(states[|srcs|], max, Ledger(states, srcs, max), |srcs|)
    ensures InOrder(Ledger(states, srcs, max))
    decreases |srcs|
  {
    hide Step, Ledger, AllRight, InOrder, Inc, NewlyAdded, State.Ok;
    if srcs == [] {
      NothingAdded(states, max);
    } else {
      var n := |srcs| - 1;
      LedgerStep(states, srcs, max);
      RunKeepsAll(states[..n + 1], srcs[..n], max);
      StepShifts(states[n], states[n + 1], max, srcs[n]);
      LedgerGrows(states[n], states[n + 1], max, srcs[n], Ledger(states[..n + 1], srcs[..n], max), n);
    }
  }

  lemma NothingAdded(states: seq<State>, max: nat)
    requires Run(states, [], max)
    ensures AllRight(states[0], max, Ledger(states, [], max), 0) && InOrder(Ledger(states, [], max))
  {
  }

  // ----- Contiguity

  /** The image adds whole blocks. */
  ghost predicate Whole(src: Source)
    requires Readable(src)
  {
    match src
    case Partitions(img) =>
      Taken(img) == []
      || (DiskEnd(Taken(img), BlockSize(img), |img|) - DiskBegin(Taken(img), BlockSize(img), |img|)) % 512 == 0
    case Volume(bytes, _, _) => |bytes| % 512 == 0
  }

  ghost predicate Tight(a: State) {
    Contiguous(a.disk) && Size(a.disk) == a.size
  }

  /** A volume that is left out appends nothing. */
  ghost predicate LeftOut(a: State, max: nat, src: Source)
    requires Readable(src)
  {
    src.Volume? && !VolumeFits(|src.bytes|, PlaceFor(a, max, src))
  }

  /** What is appended for it, if anything, is whole blocks. */
  ghost predicate NoRest(a: State, max: nat, src: Source) {
    Readable(src) && (Whole(src) || LeftOut(a, max, src))
  }

  lemma StepTight(a: State, b: State, max: nat, src: Source)
    requires a.Ok(max) && Step(a, b, max, src)
    ensures Tight(b) <==> Tight(a) && NoRest(a, max, src)
  {
    hide RoomMade, Extended, State.Ok, Growth, Contiguous, VolumeEntry, HoldsMap, Taken;
    match src
    case Partitions(img) =>
      if Taken(img) != [] {
        TakenOverTight(a, b, max, img);
      }
    case Volume(bytes, _, _) =>
      var r, m2 :| VolumeVia(a, r, m2, b, max, src);
      RoomSize(a, r, max, 1);
      if VolumeFits(|bytes|, r.size) {
        var e := NewVolume(src, r.size);
        ContiguousAfter(a, r, m2, b, max, 1, [(e, e)], Piece(r.size, bytes));
      } else {
        RoomTight(a, r, max, 1);
      }
  }

  lemma TakenOverTight(a: State, b: State, max: nat, img: seq<uint8>)
    requires TakenOver(a, b, max, img)
    ensures HoldsMap(img) && |img| >= BLOCK
    ensures Tight(b) <==> Tight(a) && (DiskEnd(Taken(img), BlockSize(img), |img|) - DiskBegin(Taken(img), BlockSize(img), |img|)) % 512 == 0
  {
    hide Taken, Placed, DiskBegin, DiskEnd, Laid, MapOk, NewListed, OldMoved, KeptBytes, ShowsBytes, Contiguous, Growth;
  }

  lemma RoomTight(a: State, r: State, max: nat, wanted: nat)
    requires RoomMade(a, r, max, wanted)
    ensures Tight(r) <==> Tight(a)
  {
    hide Grown, MovedUp, Laid, Contiguous, Growth, MapOk, Size;
    MovedUpLaid(a.disk, r.disk, Growth(a.used, max, wanted) * BLOCK);
  }

  /** The disk stays contiguous, and ends on its size, exactly when every image that is appended is a whole number of blocks. */
  lemma {:induction false} ContiguousRunIff(states: seq<State>, srcs: seq<Source>, max: nat)
    requires Run(states, srcs, max)
    ensures Tight(states[|srcs|]) <==>
            Tight(states[0]) && forall i :: 0 <= i < |srcs| ==> NoRest(states[i], max, srcs[i])
    decreases |srcs|
  {
    hide Step, StepAt, Tight, NoRest, Readable, State.Ok;
    if srcs != [] {
      var n := |srcs| - 1;
      RunPrefix(states, srcs, max);
      ContiguousRunIff(states[..n + 1], srcs[..n], max);
      RunKeepsAll(states[..n + 1], srcs[..n], max);
      RunStep(states, srcs, max, n);
      StepTight(states[n], states[n + 1], max, srcs[n]);
      assert forall i :: 0 <= i < n ==> srcs[..n][i] == srcs[i] && states[..n + 1][i] == states[i];
    }
  }

  // ----- What the map and block 0 say

  /** Block 0 holds the number of blocks once something was added and as long as no volume was left out since. */
  lemma {:induction false} CountRight(states: seq<State>, srcs: seq<Source>, max: nat)
    requires Run(states, srcs, max) && Ledger(states, srcs, max) != []
    requires NoneLeftOut(states, srcs, max) || states[|srcs|].size / 512 < TWO_32
    ensures |states[|srcs|].disk| > 0 && |states[|srcs|].Map()| >= BLOCK
    ensures BlockCount(states[|srcs|].Map()) == BlocksFor(states[|srcs|].size)
    ensures var blocks := states[|srcs|].size / 512;
            Get32(states[|srcs|].Map(), 4) == if blocks < 0x1_0000_0000 then blocks else 0xFFFF_FFFF
    decreases |srcs|
  {
    hide Step, Ledger, Inc, NewlyAdded, State.Ok, LeftOut, Readable, Get32, Shifted;
    var n := |srcs| - 1;
    if srcs == [] {
      EmptyLedger(states, max);
    } else {
      var a, b, src := states[n], states[n + 1], srcs[n];
      LedgerStep(states, srcs, max);
      RunKeepsAll(states[..n + 1], srcs[..n], max);
      StepShifts(a, b, max, src);
      SizesGrow(a, b, max, Inc(a, max, src));
      if Appends(a, max, src) {
        StepCounts(a, b, max, src);
      } else {
        NothingNew(a, max, src, n);
        assert LeftOut(a, max, src) ==> !NoneLeftOut(states, srcs, max);
        assert NoneLeftOut(states, srcs, max) ==> NoneLeftOut(states[..n + 1], srcs[..n], max) by {
          assert forall i :: 0 <= i < n ==> srcs[..n][i] == srcs[i] && states[..n + 1][i] == states[i];
        }
        CountRight(states[..n + 1], srcs[..n], max);
        StepKeepsCount(a, b, max, src);
      }
    }
  }

  ghost predicate NoneLeftOut(states: seq<State>, srcs: seq<Source>, max: nat)
    requires |states| == |srcs| + 1
  {
    forall i :: 0 <= i < |srcs| ==> Readable(srcs[i]) && !LeftOut(states[i], max, srcs[i])
  }

  /** The step appends bytes. */
  ghost predicate Appends(a: State, max: nat, src: Source)
    requires Readable(src)
  {
    !Empty(src) && !LeftOut(a, max, src)
  }

  lemma EmptyLedger(states: seq<State>, max: nat)
    requires Run(states, [], max)
    ensures Ledger(states, [], max) == []
  {
  }

  lemma SizesGrow(a: State, b: State, max: nat, inc: nat)
    requires Shifted(a, b, max, inc)
    ensures a.size <= b.size && |b.disk| > 0 && |b.Map()| >= BLOCK && |a.disk| > 0 && |a.Map()| >= BLOCK
  {
    MapInDisk(a, max);
    MapInDisk(b, max);
  }

  lemma NothingNew(a: State, max: nat, src: Source, step: nat)
    requires Readable(src) && !Appends(a, max, src)
    ensures NewlyAdded(a, max, src, step) == []
  {
  }

  lemma StepCounts(a: State, b: State, max: nat, src: Source)
    requires a.Ok(max) && Step(a, b, max, src) && Appends(a, max, src)
    ensures |b.disk| > 0 && |b.Map()| >= BLOCK && BlockCount(b.Map()) == BlocksFor(b.size)
  {
    hide RoomMade, Extended, State.Ok, Growth, VolumeEntry, HoldsMap, Taken, Get32;
    match src
    case Partitions(img) => TakenOverCounts(a, b, max, img);
    case Volume(bytes, _, _) =>
      var r, m2 :| VolumeVia(a, r, m2, b, max, src);
      RoomSize(a, r, max, 1);
      var e := NewVolume(src, r.size);
      ExtendedFacts(a, r, m2, b, max, [(e, e)], Piece(r.size, bytes));
      MapInDisk(b, max);
      RoomAndPiece(a, r, m2, b, max, 1, [(e, e)], Piece(r.size, bytes));
  }

  lemma TakenOverCounts(a: State, b: State, max: nat, img: seq<uint8>)
    requires TakenOver(a, b, max, img)
    ensures |b.disk| > 0 && |b.Map()| >= BLOCK && BlockCount(b.Map()) == BlocksFor(b.size)
  {
    hide Taken, Placed, DiskBegin, DiskEnd, NewListed, OldMoved, KeptBytes, ShowsBytes, Contiguous, Growth, State.Ok, Get32;
    MapInDisk(b, max);
  }

  lemma StepKeepsCount(a: State, b: State, max: nat, src: Source)
    requires a.Ok(max) && Step(a, b, max, src) && !Appends(a, max, src) && (LeftOut(a, max, src) ==> b.size / 512 < TWO_32)
    requires |a.disk| > 0 && |a.Map()| >= BLOCK && BlockCount(a.Map()) == BlocksFor(a.size)
    ensures |b.disk| > 0 && |b.Map()| >= BLOCK && BlockCount(b.Map()) == BlocksFor(b.size)
  {
    hide Extended, State.Ok, Growth, VolumeEntry, HoldsMap, Taken, Get32, MapOk, MovedUp, ByteAt;
    match src
    case Partitions(img) =>
    case Volume(bytes, _, _) =>
      var r, m2 :| VolumeVia(a, r, m2, b, max, src);
      MapInDisk(b, max);
      MapInDisk(a, max);
      BlocksMoved(a.size, Growth(a.used, max, 1));
  }

  /**
   The entry of such a partition leads to its position exactly when the number of its first block
   fits 32 bits, and it ends within the block count of block 0 exactly when its end does.
   */
  lemma EntryLeadsThereIff(states: seq<State>, srcs: seq<Source>, max: nat, x: Added)
    requires Run(states, srcs, max) && x in Ledger(states, srcs, max)
    ensures var b := states[|srcs|];
            && |b.disk| > 0 && |b.Map()| >= BLOCK && (x.entry + 1) * BLOCK <= |b.Map()|
            && (Field(b.Map(), x.entry, PY_PART_START) * 512 == x.pos <==> x.pos / 512 < TWO_32)
            && Field(b.Map(), x.entry, PART_BLK_CNT) == BlocksOf(x.len)
            && (NoneLeftOut(states, srcs, max) || b.size / 512 < TWO_32 ==>
                  (x.End() <= BlockCount(b.Map()) * 512 <==> x.End() / 512 < TWO_32))
  {
    hide Ledger, Get32, ShowsBytes, NoneLeftOut, BlocksOf, State.Ok;
    RunKeepsAll(states, srcs, max);
    var b := states[|srcs|];
    assert Right(b, max, x);
    MapInDisk(b, max);
    BlocksMoved(x.pos, BlocksOf(x.len));
    if NoneLeftOut(states, srcs, max) || b.size / 512 < TWO_32 {
      CountRight(states, srcs, max);
    }
  }

  /** So on a disk whose size fits 32-bit block numbers everything is where block 0 and the map say. */
  lemma AddressableRun(states: seq<State>, srcs: seq<Source>, max: nat, x: Added)
    requires Run(states, srcs, max) && x in Ledger(states, srcs, max) && states[|srcs|].size / 512 < TWO_32
    ensures var b := states[|srcs|];
            && |b.disk| > 0 && |b.Map()| >= BLOCK && (x.entry + 1) * BLOCK <= |b.Map()|
            && var start, blocks := Field(b.Map(), x.entry, PY_PART_START), Field(b.Map(), x.entry, PART_BLK_CNT);
            && start + blocks <= BlockCount(b.Map()) && x.len <= blocks * 512 < x.len + BLOCK
            && ShowsBytes(b.disk, start * 512, x.img, x.from, x.len)
  {
    hide Ledger, Get32, ShowsBytes, NoneLeftOut, BlocksOf, State.Ok, BlocksFor;
    RunKeepsAll(states, srcs, max);
    EntryLeadsThereIff(states, srcs, max, x);
    LenWithinBlocks(x.len);
    assert Right(states[|srcs|], max, x);
    BlocksMoved(x.pos, BlocksOf(x.len));
  }

  // ----- The ledger leaves nothing out

  lemma {:induction false} NewOnesComplete(a: State, max: nat, img: seq<uint8>, step: nat, n: nat, m: nat) returns (x: Added)
    requires HoldsMap(img) && m < n <= |NewEntries(a, max, img)|
    requires Exact(NewEntries(a, max, img)[m].0, BlockSize(img), |img|, DiskBegin(Taken(img), BlockSize(img), |img|))
    ensures var e, blk := NewEntries(a, max, img)[m].0, BlockSize(img);
            x in NewOnes(a, max, img, step, n) && x.step == step && x.img == img && x.entry == a.used + 1 + m
            && x.from == Begin(e, blk) && x.len == Length(e, blk)
    decreases n
  {
    hide Taken, Placed, DiskBegin, Begin, Length, Exact;
    if m < n - 1 {
      x := NewOnesComplete(a, max, img, step, n - 1, m);
    } else {
      var e, blk, db := NewEntries(a, max, img)[m].0, BlockSize(img), DiskBegin(Taken(img), BlockSize(img), |img|);
      x := NewOnes(a, max, img, step, n)[|NewOnes(a, max, img, step, n)| - 1];
    }
  }

  /** What a step adds stays in the ledger, apart from its position. */
  lemma {:induction false} LedgerKeeps(states: seq<State>, srcs: seq<Source>, max: nat, i: nat, y: Added) returns (x: Added)
    requires Run(states, srcs, max) && i < |srcs| && Readable(srcs[i]) && y in NewlyAdded(states[i], max, srcs[i], i)
    ensures x in Ledger(states, srcs, max) && x == y.(pos := x.pos)
    decreases |srcs|
  {
    hide Step, Ledger, Inc, NewlyAdded, Readable;
    var n := |srcs| - 1;
    LedgerStep(states, srcs, max);
    if i == n {
      x := y;
    } else {
      var z := LedgerKeeps(states[..n + 1], srcs[..n], max, i, y);
      x := StillIn(Ledger(states[..n + 1], srcs[..n], max), Inc(states[n], max, srcs[n]) * BLOCK, z);
    }
  }

  lemma StillIn(xs: seq<Added>, d: nat, y: Added) returns (x: Added)
    requires y in xs
    ensures x in MovedOn(xs, d) && x == y.(pos := y.pos + d)
  {
    var j :| 0 <= j < |xs| && xs[j] == y;
    x := MovedOn(xs, d)[j];
  }

  /** Every exact entry that any step added is in the ledger of the run. */
  lemma LedgerComplete(states: seq<State>, srcs: seq<Source>, max: nat, i: nat, m: nat) returns (x: Added)
    requires Run(states, srcs, max) && i < |srcs| && srcs[i].Partitions? && HoldsMap(srcs[i].img) && Taken(srcs[i].img) != []
    requires m < states[i + 1].used - states[i].used && m < |NewEntries(states[i], max, srcs[i].img)|
    requires var img := srcs[i].img;
             Exact(NewEntries(states[i], max, img)[m].0, BlockSize(img), |img|, DiskBegin(Taken(img), BlockSize(img), |img|))
    ensures var img := srcs[i].img;
            var e, blk := NewEntries(states[i], max, img)[m].0, BlockSize(img);
            x in Ledger(states, srcs, max) && x.step == i && x.img == img && x.entry == states[i].used + 1 + m
            && x.from == Begin(e, blk) && x.len == Length(e, blk)
  {
    hide NewOnes, Taken, Placed, DiskBegin, Begin, Length, Exact, Ledger, TakenOver, HoldsMap;
    var img := srcs[i].img;
    assert StepAt(states, srcs, max, i);
    UsedGrows(states[i], states[i + 1], max, img);
    var y := NewOnesComplete(states[i], max, img, i, Taking(states[i], max, img), m);
    x := LedgerKeeps(states, srcs, max, i, y);
  }

  /** And so is every volume that was listed. */
  lemma LedgerHasVolumes(states: seq<State>, srcs: seq<Source>, max: nat, i: nat) returns (x: Added)
    requires Run(states, srcs, max) && i < |srcs| && srcs[i].Volume? && states[i + 1].used > states[i].used
    ensures x in Ledger(states, srcs, max) && x.step == i && x.img == srcs[i].bytes && x.from == 0 && x.len == |srcs[i].bytes|
    ensures x.entry == states[i].used + 1
  {
    hide Ledger, Growth, Taken;
    var a, b, src := states[i], states[i + 1], srcs[i];
    assert StepAt(states, srcs, max, i);
    var r, m2 :| VolumeVia(a, r, m2, b, max, src);
    ListedVolume(a, r, m2, b, max, src);
    var y := NewlyAdded(a, max, src, i)[0];
    x := LedgerKeeps(states, srcs, max, i, y);
  }

  lemma ListedVolume(a: State, r: State, m2: seq<uint8>, b: State, max: nat, src: Source)
    requires src.Volume? && VolumeVia(a, r, m2, b, max, src) && b.used > a.used
    ensures VolumeFits(|src.bytes|, r.size) && a.used < max && r.size == PlaceFor(a, max, src)
  {
    hide Growth, Grown, MovedUp, State.Ok, VolumeEntry;
  }

  // ----- Where 32 bits end

  /** A step of growth that takes the first block of a partition past 2^32 makes its entry name another place. */
  lemma GrowthPastLimit(a: State, b: State, max: nat, inc: nat, x: Added)
    requires Shifted(a, b, max, inc) && Right(a, max, x) && inc < TWO_32
    requires x.pos / 512 < TWO_32 <= x.pos / 512 + inc
    ensures (x.entry + 1) * BLOCK <= |b.Map()|
    ensures Field(b.Map(), x.entry, PY_PART_START) * 512 == x.pos + inc * BLOCK - TWO_32 * 512
  {
    hide ByteAt, Covered, Get32, Laid, KeptBytes, ShowsBytes, MapOk, BlocksOf;
    BlocksMoved(x.pos, inc);
  }

  function SmallMap(): seq<uint8> {
    seq(1536, i requires 0 <= i < 1536 => if i == 0 then 0x45 else if i == 1 then 0x52 else if i == 2 then 2 else if i == 519 then 1 else 0)
  }

  /** What adding a volume does to the size and the number of used entries. */
  lemma VolumeSizes(a: State, b: State, max: nat, src: Source)
    requires a.Ok(max) && Step(a, b, max, src) && src.Volume?
    ensures var fits := VolumeFits(|src.bytes|, PlaceFor(a, max, src));
            && b.size == PlaceFor(a, max, src) + (if fits then RoundUp(|src.bytes|) else 0)
            && b.used == a.used + if fits && a.used < max then 1 else 0
  {
    hide State.Ok, Growth, VolumeEntry, VolumeFits, RoundUp, Grown, MovedUp;
    MapInDisk(a, max);
  }

  /** Such a run: two volumes of one block on a disk that ends 80 blocks below the limit. The second is left out but moves the first. */
  lemma RunPastLimit(states: seq<State>) returns (x: Added)
    requires |states| == 3 && states[0] == State([Piece(0, SmallMap())], (TWO_32 - 80) * BLOCK, 1)
    ensures states[0].Ok(2)
    ensures var v := Volume(seq(512, _ => 7), [], []);
            Run(states, [v, v], 2) ==>
              && x in Ledger(states, [v, v], 2) && x.pos == (TWO_32 + 42) * BLOCK
              && |states[2].disk| > 0 && (x.entry + 1) * BLOCK <= |states[2].Map()|
              && Field(states[2].Map(), x.entry, PY_PART_START) == 42
  {
    hide Ledger, Step, Right, NewlyAdded, VolumeEntry;
    var v := Volume(seq(512, _ => 7), [], []);
    var a, b, srcs := states[0], states[1], [v, v];
    assert MapOk(SmallMap(), 1, 2);
    x := Added(0, v.bytes, 0, 512, 2, (TWO_32 + 42) * BLOCK);
    if Run(states, srcs, 2) {
      assert StepAt(states, srcs, 2, 0) && StepAt(states, srcs, 2, 1);
      VolumeSizes(a, b, 2, v);
      assert Growth(1, 2, 1) == 61 == Growth(2, 2, 1);
      assert PlaceFor(a, 2, v) == (TWO_32 - 19) * BLOCK && VolumeFits(512, (TWO_32 - 19) * BLOCK);
      TwoVolumes(states, v);
      RunKeepsAll(states, srcs, 2);
      assert Right(states[2], 2, x);
      FieldOfRight(states[2], 2, x);
    }
  }

  lemma FieldOfRight(b: State, max: nat, x: Added)
    requires Right(b, max, x)
    ensures |b.disk| > 0 && (x.entry + 1) * BLOCK <= |b.Map()| && Field(b.Map(), x.entry, PY_PART_START) == Wrap32(x.pos / 512)
  {
  }

  lemma FirstVolume(a: State, v: Source)
    requires v.Volume? && |v.bytes| == 512 && a.used == 1 && a.size == (TWO_32 - 80) * BLOCK
    ensures NewlyAdded(a, 2, v, 0) == [Added(0, v.bytes, 0, 512, 2, (TWO_32 - 19) * BLOCK)]
  {
    assert Growth(1, 2, 1) == 61;
  }

  lemma SecondVolume(b: State, v: Source)
    requires v.Volume? && b.used == 2
    ensures Inc(b, 2, v) == 61
  {
  }

  /** The ledger after two volumes of which the second is left out. */
  lemma TwoVolumes(states: seq<State>, v: Source)
    requires |states| == 3 && Run(states, [v, v], 2) && v.Volume? && |v.bytes| == 512
    requires states[0].used == 1 && states[1].used == 2 && states[0].size == (TWO_32 - 80) * BLOCK
    ensures Added(0, v.bytes, 0, 512, 2, (TWO_32 + 42) * BLOCK) in Ledger(states, [v, v], 2)
  {
    hide Ledger, Step, NewlyAdded, Inc, Run;
    LedgerStep(states, [v, v], 2);
    assert [v, v][..1] == [v] && states[..2][..1] == states[..1];
    LedgerStep(states[..2], [v], 2);
    assert [v][..0] == [];
    EmptyLedger(states[..1], 2);
    var first := NewlyAdded(states[0], 2, v, 0);
    FirstVolume(states[0], v);
    SecondVolume(states[1], v);
    assert Ledger(states[..2], [v], 2) == MovedOn([], Inc(states[0], 2, v) * BLOCK) + first == first;
    var _ := StillIn(first, 61 * BLOCK, first[0]);
  }
}
