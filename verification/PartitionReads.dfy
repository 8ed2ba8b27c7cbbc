/**
 Reading the partitions of a virtual disk: after any run of additions `Read` returns, for every
 partition that was added exactly, the bytes that it has in its own image.
 */
module PartitionReads {
  import opened Words
  import opened DiskLayout
  import opened ApmBytes
  import opened BigEndian
  import opened ApmGrowth
  import opened ApmImages
  import opened Takeover
  import opened TakeoverRuns
  import opened MetaImgFile
  import opened MetaChunks

  /** Bytes shown without a gap lie within the disk, all of them. */
  lemma ShownWithinDisk(ps: seq<Piece>, from: nat, img: seq<uint8>, lo: nat, n: nat)
    requires Laid(ps) && ShowsBytes(ps, from, img, lo, n)
    ensures n > 0 ==> from + n <= Size(ps)
    ensures NoGap(ps, from, Takeover.Min(from + n, Size(ps)))
  {
    hide ByteAt, Laid;
    if n > 0 && Size(ps) <= from + n - 1 {
      BeyondSize(ps, from + n - 1);
    }
  }

  /** Reads a range of the disk that shows bytes of an image. */
  method ReadShown(disk: MetaImgFile, buf: array<uint8>, offset: nat, length: nat, ghost img: seq<uint8>, ghost lo: nat)
    returns (n: nat)
    requires disk.ChunksOk() && buf !in disk.Repr && length <= buf.Length
    requires ShowsBytes(disk.disk, offset, img, lo, length)
    modifies buf
    ensures n == length && lo + length <= |img| && buf[..length] == img[lo..lo + length]
    ensures forall k :: length <= k < buf.Length ==> buf[k] == old(buf[k])
  {
    hide ByteAt, Laid, MetaImgFile.Shows, MetaImgFile.Separate;
    ShownWithinDisk(disk.disk, offset, img, lo, length);
    n := disk.Read(buf, offset, length);
    forall k | 0 <= k < length
      ensures buf[k] == img[lo + k]
    {
      assert buf[k] == ByteAt(disk.disk, offset + k);
    }
  }

  /** Reads a partition of the run at the position where the run has left it. */
  method ReadPartition(disk: MetaImgFile, buf: array<uint8>, offset: nat, length: nat,
                       ghost states: seq<State>, ghost srcs: seq<Source>, ghost x: Added)
    returns (n: nat)
    requires disk.HasMap() && buf !in disk.Repr && length <= buf.Length
    requires Run(states, srcs, disk.maxPartitions) && disk.Now() == states[|srcs|]
    requires x in Ledger(states, srcs, disk.maxPartitions) && offset == x.pos && length == x.len
    modifies buf
    ensures n == length && x.from + x.len <= |x.img| && buf[..length] == x.img[x.from..x.from + x.len]
    ensures forall k :: length <= k < buf.Length ==> buf[k] == old(buf[k])
  {
    hide Ledger, Run, ShowsBytes, State.Ok, MapOk, MetaImgFile.ChunksOk;
    RunKeepsAll(states, srcs, disk.maxPartitions);
    assert Right(disk.Now(), disk.maxPartitions, x);
    n := ReadShown(disk, buf, offset, length, x.img, x.from);
  }

  /** What entry `k` of the map holds in its field `f`. */
  method MapField(disk: MetaImgFile, k: nat, f: nat) returns (v: uint32)
    requires disk.HasMap() && f + 4 <= BLOCK && (k + 1) * BLOCK <= |disk.Map()|
    ensures v == Field(disk.Map(), k, f)
  {
    hide MetaImgFile.Shows, MetaImgFile.Separate, Laid, MapOk, Get32;
    disk.MapBytes();
    v := Get32(disk.chunks[0].store[..], k * BLOCK + f);
  }

  /** Reads a partition of the run where its entry in the map says, on a disk with 32-bit block numbers. */
  method ReadEntry(disk: MetaImgFile, buf: array<uint8>, entry: nat, length: nat,
                   ghost states: seq<State>, ghost srcs: seq<Source>, ghost x: Added)
    returns (n: nat)
    requires disk.HasMap() && buf !in disk.Repr && length <= buf.Length
    requires Run(states, srcs, disk.maxPartitions) && disk.Now() == states[|srcs|] && disk.metaImageSize / 512 < TWO_32
    requires x in Ledger(states, srcs, disk.maxPartitions) && entry == x.entry && length == x.len
    modifies buf
    ensures n == length && x.from + x.len <= |x.img| && buf[..length] == x.img[x.from..x.from + x.len]
    ensures forall k :: length <= k < buf.Length ==> buf[k] == old(buf[k])
  {
    hide Ledger, Run, ShowsBytes, State.Ok, MapOk, MetaImgFile.ChunksOk, ByteAt, Get32;
    AddressableRun(states, srcs, disk.maxPartitions, x);
    var start: nat := MapField(disk, entry, PY_PART_START);
    n := ReadShown(disk, buf, start * 512, length, x.img, x.from);
  }

  lemma ExactIsTaken(a: State, max: nat, img: seq<uint8>, m: nat)
    requires HoldsMap(img) && |img| >= BLOCK && m < |NewEntries(a, max, img)|
    requires Exact(NewEntries(a, max, img)[m].0, BlockSize(img), |img|, DiskBegin(Taken(img), BlockSize(img), |img|))
    ensures exists e :: e in Taken(img) && InRange(e, BlockSize(img), |img|)
  {
    hide Taken, Placed, DiskBegin, InRange;
    PlacedFrom(Taken(img), BlockSize(img), ChunkBegin(a, max, img), DiskBegin(Taken(img), BlockSize(img), |img|), m);
  }

  /**
   Takes over an image and reads what the map now lists for its `m`-th wanted partition: for an exact
   partition that the map had room for, these are the bytes it has in the image.
   */
  method AddAndRead(disk: MetaImgFile, file: MetaChunk, m: nat) returns (buf: array<uint8>)
    requires disk.HasMap() && disk.Foreign(file) && file.chunkBegin == 0 && HoldsMap(file.Window().bytes)
    requires var img, max := file.Window().bytes, disk.maxPartitions;
             var es, blk, news := Taken(img), BlockSize(img), NewEntries(disk.Now(), max, img);
             && es != [] && m < |news| && disk.usedPartitions + m < max
             && Exact(news[m].0, blk, |img|, DiskBegin(es, blk, |img|))
             && ChunkBegin(disk.Now(), max, img) + |img| < TWO_64
    modifies disk, disk.Repr, file
    ensures disk.HasMap() && fresh(buf)
    ensures var img := old(file.Window().bytes);
            var e, blk := old(NewEntries(disk.Now(), disk.maxPartitions, file.Window().bytes)[m].0), BlockSize(img);
            Begin(e, blk) + Length(e, blk) <= |img| && buf[..] == img[Begin(e, blk)..Begin(e, blk) + Length(e, blk)]
  {
    hide MetaImgFile.ChunksOk, MapOk, MetaChunk.Window, Taken, InRange, Placed, TakenOver, ShowsBytes, Get32, State.Ok, DiskBegin, Begin, Length;
    ghost var img, a := file.Window().bytes, disk.Now();
    var k := disk.usedPartitions + 1 + m;
    ExactIsTaken(a, disk.maxPartitions, img, m);
    disk.AddPartitionsFromImage(file);
    UsedGrows(a, disk.Now(), disk.maxPartitions, img);
    RelocationExact(a, disk.Now(), disk.maxPartitions, img, m);
    var start: nat := MapField(disk, k, PY_PART_START);
    var blocks: nat := MapField(disk, k, PART_BLK_CNT);
    buf := new uint8[blocks * 512];
    var n := ReadShown(disk, buf, start * 512, blocks * 512, img, Begin(NewEntries(a, disk.maxPartitions, img)[m].0, BlockSize(img)));
    assert buf[..n] == buf[..];
  }

  // ----- The operations carry a run on

  lemma RunGoesOn(states: seq<State>, srcs: seq<Source>, max: nat, b: State, src: Source)
    requires Run(states, srcs, max) && Step(states[|srcs|], b, max, src)
    ensures Run(states + [b], srcs + [src], max)
  {
    hide Step;
    var after, done := states + [b], srcs + [src];
    forall i | 0 <= i < |done|
      ensures StepAt(after, done, max, i)
    {
      if i < |srcs| {
        assert StepAt(states, srcs, max, i);
      }
    }
  }

  /** Adding a partitioned image is a step of a run. */
  method AddImage(disk: MetaImgFile, file: MetaChunk, ghost states: seq<State>, ghost srcs: seq<Source>)
    requires disk.HasMap() && disk.Foreign(file) && file.chunkBegin == 0 && HoldsMap(file.Window().bytes)
    requires var img := file.Window().bytes;
             && (Taken(img) == [] || exists e :: e in Taken(img) && InRange(e, BlockSize(img), |img|))
             && ChunkBegin(disk.Now(), disk.maxPartitions, img) + |img| < TWO_64
    requires Run(states, srcs, disk.maxPartitions) && disk.Now() == states[|srcs|]
    modifies disk, disk.Repr, file
    ensures disk.HasMap()
    ensures Run(states + [disk.Now()], srcs + [Partitions(old(file.Window().bytes))], disk.maxPartitions)
  {
    hide MetaImgFile.HasMap, MetaChunk.Window, Taken, TakenOver, InRange, Run, ChunkBegin, HoldsMap;
    ghost var img := file.Window().bytes;
    disk.AddPartitionsFromImage(file);
    RunGoesOn(states, srcs, disk.maxPartitions, disk.Now(), Partitions(img));
  }

  /** And so is adding a single volume. */
  method AddVolume(disk: MetaImgFile, file: MetaChunk, partType: seq<uint8>, name: seq<uint8>, ghost states: seq<State>, ghost srcs: seq<Source>)
    requires disk.HasMap() && disk.Foreign(file)
    requires Run(states, srcs, disk.maxPartitions) && disk.Now() == states[|srcs|]
    modifies disk, disk.Repr, file
    ensures disk.HasMap()
    ensures Run(states + [disk.Now()], srcs + [Volume(old(file.Window().bytes), partType, name)], disk.maxPartitions)
  {
    hide MetaImgFile.HasMap, MetaChunk.Window, RoomMade, Extended, Run, VolumeFits, VolumeEntry;
    ghost var w, a := file.Window(), disk.Now();
    ghost var r, m2 := disk.AddPartitionFromImage(file, partType, name);
    assert VolumeVia(a, r, m2, disk.Now(), disk.maxPartitions, Volume(w.bytes, partType, name));
    RunGoesOn(states, srcs, disk.maxPartitions, disk.Now(), Volume(w.bytes, partType, name));
  }
}
