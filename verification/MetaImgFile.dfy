/**
 The virtual disk of utils/metaimgfile.cpp: a list of chunks in disk order, read and written at
 any offset and length across chunk boundaries.
 */
module MetaImgFile {
  import opened Words
  import opened DiskLayout
  import opened MetaChunks
  import opened ApmBytes
  import BigEndian
  import opened ApmGrowth
  import ApmEntries
  import opened ApmImages
  import opened Takeover

  function Max(a: int, b: int): int { if a < b then b else a }

  function EndBefore(ps: seq<Piece>, i: nat): nat
    requires i <= |ps|
  {
    if i == 0 then 0 else ps[i - 1].End()
  }

  /**
   How far a transfer of [offset, end) has come after `i` pieces: either there was no gap and the
   position is where those pieces end, or there was one and the position has fallen behind.
   */
  ghost predicate OnTrack(ps: seq<Piece>, i: nat, offset: nat, end: nat, pos: nat)
    requires i <= |ps|
  {
    pos == Max(offset, Min(end, EndBefore(ps, i))) && NoGap(ps, offset, pos)
  }

  ghost predicate Behind(ps: seq<Piece>, i: nat, offset: nat, end: nat, pos: nat)
    requires i <= |ps|
  {
    var hi := Min(end, EndBefore(ps, i));
    pos < hi && !NoGap(ps, offset, hi)
  }

  /** The first `n` bytes of `data` are those of the disk at `offset`. */
  ghost predicate Holds(ps: seq<Piece>, offset: nat, data: seq<uint8>, n: nat)
    requires n <= |data|
  {
    forall k :: 0 <= k < n ==> data[k] == ByteAt(ps, offset + k)
  }

  lemma Started(ps: seq<Piece>, offset: nat, end: nat)
    requires offset <= end
    ensures OnTrack(ps, 0, offset, end, offset)
  {
  }

  lemma Overtaken(ps: seq<Piece>, i: nat, offset: nat, end: nat, pos: nat)
    requires Laid(ps) && i < |ps| && offset <= pos && ps[i].End() <= pos <= end
    requires OnTrack(ps, i, offset, end, pos) || Behind(ps, i, offset, end, pos)
    ensures OnTrack(ps, i, offset, end, pos) && OnTrack(ps, i + 1, offset, end, pos)
    ensures ps[i].End() <= offset || ps[i].bytes == []
  {
  }

  /** One piece is transferred: from where the position is, or from the piece's begin if that is later. */
  lemma Transferred(ps: seq<Piece>, i: nat, offset: nat, end: nat, pos: nat)
    requires Laid(ps) && i < |ps| && offset <= pos <= end && ps[i].begin < end && pos < ps[i].End()
    requires OnTrack(ps, i, offset, end, pos) || Behind(ps, i, offset, end, pos)
    ensures var from, to := Max(ps[i].begin, pos), Min(ps[i].End(), end);
            && from <= to
            && (OnTrack(ps, i, offset, end, pos) && ps[i].begin <= pos <==> OnTrack(ps, i + 1, offset, end, pos + (to - from)))
            && (Behind(ps, i, offset, end, pos) || pos < ps[i].begin ==>
                  pos < ps[i].begin && Behind(ps, i + 1, offset, end, pos + (to - from)))
  {
    var from, to := Max(ps[i].begin, pos), Min(ps[i].End(), end);
    assert i > 0 ==> ps[i - 1].End() <= ps[i].begin;
    if ps[i].begin <= pos {
      forall p | pos <= p < to
        ensures Covered(ps, p)
      {
        assert ps[i].Covers(p);
      }
    } else if OnTrack(ps, i, offset, end, pos) {
      assert !Covered(ps, pos) by {
        forall j | 0 <= j < |ps|
          ensures !ps[j].Covers(pos)
        {
          assert j < i - 1 ==> ps[j].End() <= ps[i - 1].begin;
          assert j > i ==> ps[i].End() <= ps[j].begin;
        }
      }
    }
  }

  /** On track, the transfer takes all that the range wants of the piece. */
  lemma TransferIsWhole(ps: seq<Piece>, i: nat, offset: nat, end: nat, pos: nat)
    requires Laid(ps) && i < |ps| && OnTrack(ps, i, offset, end, pos) && ps[i].begin <= pos < ps[i].End()
    ensures forall p :: offset <= p < end && ps[i].Covers(p) ==> pos <= p < Min(ps[i].End(), end)
    ensures offset <= pos
  {
  }

  lemma Finished(ps: seq<Piece>, i: nat, offset: nat, end: nat, pos: nat)
    requires Laid(ps) && i <= |ps| && offset <= pos <= end
    requires i < |ps| ==> end <= ps[i].begin
    requires OnTrack(ps, i, offset, end, pos) || Behind(ps, i, offset, end, pos)
    ensures var hi := Min(end, Size(ps));
            && pos - offset <= Max(0, hi - offset)
            && (pos - offset == Max(0, hi - offset) <==> NoGap(ps, offset, hi))
            && (NoGap(ps, offset, hi) ==> OnTrack(ps, i, offset, end, pos) && pos == Max(offset, hi))
  {
    var hi := Min(end, Size(ps));
    if i < |ps| {
      assert ps[i].End() <= Size(ps) by {
        assert i < |ps| - 1 ==> ps[i].End() <= ps[|ps| - 1].begin;
      }
      if OnTrack(ps, i, offset, end, pos) && pos < end {
        assert !Covered(ps, pos) by {
          forall j | 0 <= j < |ps|
            ensures !ps[j].Covers(pos)
          {
            assert j < i - 1 ==> ps[j].End() <= ps[i - 1].begin;
            assert j > i ==> ps[i].End() <= ps[j].begin;
          }
        }
      }
    }
  }

  lemma NothingWritten(ps: seq<Piece>, offset: nat, end: nat, data: seq<uint8>)
    requires offset <= end && end - offset == |data|
    ensures Overwritten(ps, ps, 0, offset, end, data, OnTrack(ps, 0, offset, end, offset))
  {
  }

  /** What a finished write has done to the flat disk. */
  lemma AllWritten(ps: seq<Piece>, qs: seq<Piece>, i: nat, offset: nat, end: nat, pos: nat, data: seq<uint8>)
    requires Laid(ps) && i <= |ps| && offset <= pos <= end && end - offset == |data|
    requires i < |ps| ==> end <= ps[i].begin
    requires OnTrack(ps, i, offset, end, pos) || Behind(ps, i, offset, end, pos)
    requires Overwritten(ps, qs, i, offset, end, data, OnTrack(ps, i, offset, end, pos))
    ensures SameLayout(qs, ps) && Laid(qs)
    ensures var hi := Min(end, Size(ps));
            && pos - offset <= Max(0, hi - offset)
            && (pos - offset == Max(0, hi - offset) <==> NoGap(ps, offset, hi))
            && (NoGap(ps, offset, hi) ==>
                  forall p: nat :: ByteAt(qs, p) == if offset <= p < hi then data[p - offset] else ByteAt(ps, p))
    ensures forall p: nat :: !(offset <= p < end) ==> ByteAt(qs, p) == ByteAt(ps, p)
  {
    var exact := OnTrack(ps, i, offset, end, pos);
    var hi := Min(end, Size(ps));
    Finished(ps, i, offset, end, pos);
    assert forall j :: i < j < |ps| ==> ps[i].End() <= ps[j].begin;
    OverwriteSkip(ps, qs, i, |ps|, offset, end, data, exact);
    SameLayoutCovers(ps, qs, 0);
    forall p: nat
      ensures !(offset <= p < end) ==> ByteAt(qs, p) == ByteAt(ps, p)
      ensures NoGap(ps, offset, hi) ==> ByteAt(qs, p) == if offset <= p < hi then data[p - offset] else ByteAt(ps, p)
    {
      OverwrittenByte(ps, qs, offset, end, data, exact, p);
      if p >= Size(ps) {
        BeyondSize(ps, p);
        SameLayoutCovers(ps, qs, p);
        ByteOfNone(qs, p);
      }
    }
  }

  class MetaImgFile {
    var chunks: seq<MetaChunk>
    var metaImageSize: nat
    var usedPartitions: nat
    var maxPartitions: nat

    /** The disk as pieces, one per chunk; `ByteAt` of it is the flat disk. */
    ghost var disk: seq<Piece>
    /** The chunks and their stores. */
    ghost var Repr: set<object>

    /** Chunk `i` shows piece `i` of the disk. */
    ghost predicate Shows(i: nat)
      requires i < |chunks| == |disk|
      reads this`chunks, this`disk, this`Repr, Repr
    {
      && chunks[i] in Repr && chunks[i].store in Repr
      && chunks[i].Ok() && chunks[i].Window() == disk[i]
    }

    ghost predicate Separate()
      reads this`chunks, this`disk, this`Repr, Repr
    {
      && (forall i :: 0 <= i < |chunks| ==> chunks[i] in Repr)
      && forall i, j :: 0 <= i < j < |chunks| ==> chunks[i] != chunks[j] && chunks[i].store != chunks[j].store
    }

    ghost predicate ChunksOk()
      reads this`chunks, this`disk, this`Repr, Repr
    {
      && |disk| == |chunks| && this !in Repr
      && (forall i {:trigger Shows(i)} :: 0 <= i < |chunks| ==> Shows(i))
      && Separate() && Laid(disk)
    }

    lemma ChunkAt(i: nat)
      requires ChunksOk() && i < |chunks|
      ensures Shows(i) && disk[i].begin == chunks[i].chunkBegin && disk[i].End() == chunks[i].chunkEnd
    {
    }

    /**
     Reads `length` bytes at `offset`. The chunks need not be contiguous, as an image whose size is
     not a multiple of the block size leaves a gap behind it: then, and only then, the count falls
     short, because the position does not move over the gap.
     */
    method Read(buf: array<uint8>, offset: nat, length: nat) returns (n: nat)
      requires ChunksOk() && buf !in Repr && length <= buf.Length
      modifies buf
      ensures var hi := Min(offset + length, Size(disk));
              && n <= Max(0, hi - offset) && (n == Max(0, hi - offset) <==> NoGap(disk, offset, hi))
              && (NoGap(disk, offset, hi) ==> forall k :: 0 <= k < length ==> buf[k] == ByteAt(disk, offset + k))
      ensures forall k :: length <= k < buf.Length ==> buf[k] == old(buf[k])
    {
      hide OnTrack, Behind, Laid, NoGap, Separate, MetaChunk.Window;
      var end := offset + length;
      var pos := offset;
      var i := 0;
      Started(disk, offset, end);
      while i < |chunks|
        invariant 0 <= i <= |chunks| && offset <= pos <= end && ChunksOk()
        invariant OnTrack(disk, i, offset, end, pos) || Behind(disk, i, offset, end, pos)
        invariant OnTrack(disk, i, offset, end, pos) ==> Holds(disk, offset, buf[..], pos - offset)
        invariant forall k :: length <= k < buf.Length ==> buf[k] == old(buf[k])
      {
        ChunkAt(i);
        if end <= chunks[i].chunkBegin {
          break;
        }
        if pos < chunks[i].chunkEnd {
          Transferred(disk, i, offset, end, pos);
          pos := ReadChunk(buf, offset, end, pos, i);
        } else {
          Overtaken(disk, i, offset, end, pos);
        }
        i := i + 1;
      }
      if i < |chunks| {
        ChunkAt(i);
      }
      Finished(disk, i, offset, end, pos);
      ghost var got := buf[..];
      ZeroFill(buf, pos - offset, end - offset);
      n := pos - offset;
      if NoGap(disk, offset, Min(end, Size(disk))) {
        forall k | 0 <= k < length
          ensures buf[k] == ByteAt(disk, offset + k)
        {
          if k < n {
            assert buf[k] == got[k];
          } else {
            BeyondSize(disk, offset + k);
          }
        }
      }
    }

    method ZeroFill(buf: array<uint8>, lo: nat, hi: nat)
      requires lo <= hi <= buf.Length
      modifies buf
      ensures forall k :: lo <= k < hi ==> buf[k] == 0
      ensures forall k :: 0 <= k < buf.Length && !(lo <= k < hi) ==> buf[k] == old(buf[k])
    {
      forall k | lo <= k < hi {
        buf[k] := 0;
      }
    }

    /** One round of the loop in `Read`: the part of chunk `i` that the range still wants. */
    method ReadChunk(buf: array<uint8>, offset: nat, end: nat, pos: nat, i: nat) returns (next: nat)
      requires ChunksOk() && buf !in Repr && i < |chunks|
      requires offset <= pos <= end && end - offset <= buf.Length
      requires chunks[i].chunkBegin < end && pos < chunks[i].chunkEnd
      modifies buf
      ensures next == pos + (Min(chunks[i].chunkEnd, end) - Max(chunks[i].chunkBegin, pos)) <= end
      ensures chunks[i].chunkBegin <= pos ==> forall k :: pos - offset <= k < next - offset ==> buf[k] == ByteAt(disk, offset + k)
      ensures forall k :: 0 <= k < buf.Length && !(pos - offset <= k < end - offset) ==> buf[k] == old(buf[k])
    {
      hide Laid, Separate, ByteAt;
      ChunkAt(i);
      var chunk := chunks[i];
      var chunkBegin := Max(chunk.chunkBegin, pos);
      var chunkEnd := Min(chunk.chunkEnd, end);
      var chunkLen := chunkEnd - chunkBegin;
      if pos < chunkBegin {
        ZeroFill(buf, pos - offset, chunkBegin - offset);
      }
      chunk.Read(buf, pos - offset, chunkBegin - chunk.chunkBegin + chunk.srcOffset, chunkLen);
      next := pos + chunkLen;
      if chunk.chunkBegin <= pos {
        forall k: nat | pos - offset <= k < next - offset
          ensures buf[k] == ByteAt(disk, offset + k)
        {
          ByteOfPiece(disk, i, offset + k);
        }
      }
    }

    /**
     Writes `length` bytes of `buf` at `offset`. Without a gap in the range it changes exactly that
     range of the flat disk; with one, it stays within the range but puts bytes where they do not
     belong, and the count tells.
     */
    method Write(buf: array<uint8>, offset: nat, length: nat) returns (n: nat)
      requires ChunksOk() && buf !in Repr && length <= buf.Length
      modifies this`disk, set c | c in chunks :: c.store
      ensures ChunksOk() && SameLayout(disk, old(disk))
      ensures var hi := Min(offset + length, Size(old(disk)));
              && n <= Max(0, hi - offset) && (n == Max(0, hi - offset) <==> NoGap(old(disk), offset, hi))
              && (NoGap(old(disk), offset, hi) ==>
                    forall p: nat :: ByteAt(disk, p) == if offset <= p < hi then buf[p - offset] else ByteAt(old(disk), p))
      ensures forall p: nat :: !(offset <= p < offset + length) ==> ByteAt(disk, p) == ByteAt(old(disk), p)
    {
      hide OnTrack, Behind, Laid, NoGap, Separate, Shows, Overwritten, SameLayout, ByteAt;
      var end := offset + length;
      var pos := offset;
      ghost var data := buf[..length];
      var i := 0;
      Started(disk, offset, end);
      NothingWritten(disk, offset, end, data);
      while i < |chunks|
        invariant 0 <= i <= |chunks| == |old(disk)| && offset <= pos <= end && ChunksOk()
        invariant data == buf[..length]
        invariant OnTrack(old(disk), i, offset, end, pos) || Behind(old(disk), i, offset, end, pos)
        invariant Overwritten(old(disk), disk, i, offset, end, data, OnTrack(old(disk), i, offset, end, pos))
      {
        OverwrittenAt(old(disk), disk, i, offset, end, data, OnTrack(old(disk), i, offset, end, pos));
        ChunkAt(i);
        if end <= chunks[i].chunkBegin {
          break;
        }
        StoreDiffers(buf, i);
        pos := WriteChunk(buf, offset, end, pos, i, old(disk), data);
        i := i + 1;
      }
      if i < |chunks| {
        ChunkAt(i);
        OverwrittenAt(old(disk), disk, i, offset, end, data, OnTrack(old(disk), i, offset, end, pos));
      }
      n := pos - offset;
      AllWritten(old(disk), disk, i, offset, end, pos, data);
    }

    lemma StoreDiffers(buf: array<uint8>, i: nat)
      requires ChunksOk() && buf !in Repr && i < |chunks|
      ensures chunks[i] in chunks && chunks[i].store != buf
    {
      assert Shows(i);
    }

    /** One round of the loop in `Write`. */
    method WriteChunk(buf: array<uint8>, offset: nat, end: nat, pos: nat, i: nat,
                      ghost ps: seq<Piece>, ghost data: seq<uint8>) returns (next: nat)
      requires ChunksOk() && buf !in Repr && i < |chunks| && Laid(ps)
      requires offset <= pos <= end && end - offset <= buf.Length && data == buf[..end - offset]
      requires chunks[i].chunkBegin < end
      requires |ps| == |chunks| && (OnTrack(ps, i, offset, end, pos) || Behind(ps, i, offset, end, pos))
      requires Overwritten(ps, disk, i, offset, end, data, OnTrack(ps, i, offset, end, pos))
      modifies this`disk, chunks[i].store
      ensures ChunksOk() && offset <= next <= end
      ensures OnTrack(ps, i + 1, offset, end, next) || Behind(ps, i + 1, offset, end, next)
      ensures Overwritten(ps, disk, i + 1, offset, end, data, OnTrack(ps, i + 1, offset, end, next))
    {
      hide OnTrack, Behind, Laid, NoGap, Separate, Shows, Overwritten;
      ghost var exact := OnTrack(ps, i, offset, end, pos);
      ChunkAt(i);
      OverwrittenAt(ps, disk, i, offset, end, data, exact);
      next := pos;
      if pos < chunks[i].chunkEnd {
        var chunkBegin := Max(chunks[i].chunkBegin, pos);
        var chunkEnd := Min(chunks[i].chunkEnd, end);
        var chunkLen := chunkEnd - chunkBegin;
        Transferred(ps, i, offset, end, pos);
        next := pos + chunkLen;
        ghost var exactNext := OnTrack(ps, i + 1, offset, end, next);
        ghost var w := buf[pos - offset..pos - offset + chunkLen];
        if exactNext {
          TransferIsWhole(ps, i, offset, end, pos);
          assert chunkBegin == pos;
          assert w == data[pos - offset..pos - offset + chunkLen];
        }
        OverwriteNext(ps, disk, i, offset, end, data, exact, chunkBegin, w, exactNext);
        OverwriteWindow(buf, pos - offset, i, chunkBegin, chunkLen);
      } else {
        Overtaken(ps, i, offset, end, pos);
        OverwriteSkip(ps, disk, i, i + 1, offset, end, data, exact);
      }
    }

    /** Replaces `len` bytes of the disk from position `from`, all within chunk `i`. */
    method OverwriteWindow(buf: array<uint8>, at: nat, i: nat, from: nat, len: nat)
      requires ChunksOk() && buf !in Repr && i < |chunks|
      requires disk[i].begin <= from && from + len <= disk[i].End() && at + len <= buf.Length
      modifies this`disk, chunks[i].store
      ensures ChunksOk()
      ensures disk == old(disk)[i := old(disk)[i].Overlay(from, old(buf[at..at + len]))]
    {
      hide Laid, Piece.Overlay, MetaChunk.Window;
      ChunkAt(i);
      chunks[i].WriteAt(buf, at, from, len);
      disk := disk[i := disk[i].Overlay(from, buf[at..at + len])];
      forall j | 0 <= j < |chunks|
        ensures Shows(j)
      {
        if j != i {
          assert old(Shows(j));
        }
      }
      SameLayoutCovers(old(disk), disk, 0);
    }

    // ----- The partition map

    /** The first chunk is the memory with block 0, the partition map and the driver partitions. */
    ghost predicate HasMap()
      reads this, Repr
    {
      && ChunksOk() && |chunks| > 0 && MapChunk()
      && MapOk(disk[0].bytes, usedPartitions, maxPartitions)
      && Size(disk) <= metaImageSize && metaImageSize % 512 == 0
    }

    ghost predicate MapChunk()
      requires |chunks| > 0 && chunks[0] in Repr
      reads this`chunks, this`disk, this`Repr, Repr
    {
      && chunks[0].isRam && chunks[0].chunkBegin == 0 == chunks[0].srcOffset
      && chunks[0].chunkEnd == chunks[0].store.Length
    }

    /** Block 0, map and drivers as bytes. */
    ghost function Map(): seq<uint8>
      requires |disk| > 0
      reads this
    {
      disk[0].bytes
    }

    lemma MapBytes()
      requires ChunksOk() && |chunks| > 0 && MapChunk()
      ensures Map() == chunks[0].store[..] && disk[0].begin == 0
    {
      ChunkAt(0);
    }

    /**
     Makes sure that the map has room for so many more partitions and some spare ones. What follows
     the map moves up, and whatever names its position moves with it: no partition's contents change.
     `maxPartitions` keeps its value even when the map has grown.
     */
    method ReservePartitions(partitionsToReserve: nat)
      requires HasMap()
      modifies this`metaImageSize, this`disk, this`Repr, chunks
      ensures HasMap() && fresh(Repr - old(Repr))
      ensures var inc := Growth(usedPartitions, maxPartitions, partitionsToReserve);
              && metaImageSize == old(metaImageSize) + inc * BLOCK
              && Grown(old(Map()), Map(), usedPartitions, maxPartitions, inc)
              && MovedUp(old(disk), disk, inc * BLOCK)
              && forall p: nat :: p >= (maxPartitions + 1) * BLOCK ==> ByteAt(disk, p + inc * BLOCK) == ByteAt(old(disk), p)
    {
      hide MapOk, Grown, Laid, Size, MovedUp, ByteAt, Shows, Separate;
      var newNumPartitions := usedPartitions + MIN_UNUSED + partitionsToReserve;
      GrowthFits(usedPartitions, maxPartitions, partitionsToReserve);
      if newNumPartitions <= maxPartitions {
        GrownByNone(Map(), usedPartitions, maxPartitions);
        MapBytes();
        MovedUpByNone(disk);
        return;
      }
      var newMaxPartitions := (1 + newNumPartitions + INCREMENT - 1) / INCREMENT * INCREMENT - 1;
      GrowMap(newMaxPartitions - maxPartitions);
    }

    method GrowMap(blockIncrement: nat)
      requires HasMap() && blockIncrement > 0
      modifies this`metaImageSize, this`disk, this`Repr, chunks
      ensures HasMap() && fresh(Repr - old(Repr)) && metaImageSize == old(metaImageSize) + blockIncrement * BLOCK
      ensures Grown(old(Map()), Map(), usedPartitions, maxPartitions, blockIncrement)
      ensures MovedUp(old(disk), disk, blockIncrement * BLOCK)
      ensures forall p: nat :: p >= (maxPartitions + 1) * BLOCK ==>
                ByteAt(disk, p + blockIncrement * BLOCK) == ByteAt(old(disk), p)
    {
      hide MapOk, Grown, Laid, Size, MovedUp, ByteAt, Shows, Separate;
      ghost var ps := disk;
      var d := blockIncrement * BLOCK;
      MapBytes();
      var data2 := GrownBytes(blockIncrement);
      MoveUpChunks(data2, d);
      metaImageSize := metaImageSize + d;
      assert metaImageSize % 512 == 0 by {
        assert d == 512 * blockIncrement;
      }
      MovedUpLaid(ps, disk, d);
      forall p: nat | p >= (maxPartitions + 1) * BLOCK
        ensures ByteAt(disk, p + d) == ByteAt(ps, p)
      {
        MovedUpByte(ps, disk, d, (maxPartitions + 1) * BLOCK, p);
      }
    }

    /** New memory for the first chunk, with the map grown and its block numbers moved. */
    method GrownBytes(inc: nat) returns (data2: array<uint8>)
      requires ChunksOk() && |chunks| > 0 && MapChunk()
      requires MapOk(Map(), usedPartitions, maxPartitions) && inc > 0
      ensures fresh(data2) && Grown(Map(), data2[..], usedPartitions, maxPartitions, inc)
      ensures MapOk(data2[..], usedPartitions, maxPartitions) && data2.Length == |Map()| + inc * BLOCK
      ensures 0 < (maxPartitions + 1) * BLOCK <= |Map()|
      ensures forall j :: (maxPartitions + 1) * BLOCK <= j < |Map()| ==> data2[j + inc * BLOCK] == Map()[j]
    {
      hide MapOk, Grown, Moved, Widened, Shows, Separate;
      MapOkFacts(Map(), usedPartitions, maxPartitions);
      MapBytes();
      data2 := Widen(chunks[0].store, usedPartitions, maxPartitions, inc);
      ghost var widened := data2[..];
      WidenedFacts(Map(), widened, usedPartitions, maxPartitions, inc);
      MoveMap(data2, inc);
      WidenedMoved(Map(), widened, data2[..], usedPartitions, maxPartitions, inc);
      GrownFacts(Map(), data2[..], usedPartitions, maxPartitions, inc);
    }

    /** Gives the first chunk its new bytes and moves the other chunks up. */
    method MoveUpChunks(data2: array<uint8>, d: nat)
      requires ChunksOk() && |chunks| > 0 && MapChunk() && data2 !in Repr
      requires 0 < |Map()| && data2.Length == |Map()| + d
      modifies this`disk, this`Repr, chunks
      ensures ChunksOk() && MapChunk() && Repr == old(Repr) + {data2}
      ensures MovedUp(old(disk), disk, d) && disk[0].bytes == data2[..]
    {
      hide Laid, MovedUp, MoveUp, Contiguous, Size, MetaChunk.Window;
      MapBytes();
      ChunkAt(0);
      forall i | 0 <= i < |chunks|
        ensures Slice(i)
      {
        SliceAt(i);
      }
      BeginsPositive();
      MoveFields(data2, d);
      Repr := Repr + {data2};
      disk := MoveUp(disk, data2[..], d);
      MovedUpLaid(old(disk), disk, d);
      forall i | 0 <= i < |chunks|
        ensures Shows(i) && old(chunks[i].store) != data2
      {
        assert old(Shows(i) && Slice(i));
        assert FieldsMoved(chunks[i], i == 0, data2, d);
        if i > 0 {
          MovedUpAt(old(disk), disk, d, i);
        }
        WindowIs(chunks[i], if i == 0 then data2[..] else old(chunks[i].store[..]), chunks[i].chunkEnd - chunks[i].chunkBegin);
      }
    }

    /** Piece `i` as a slice of the store of its chunk. */
    ghost predicate Slice(i: nat)
      requires i < |chunks| == |disk| && Shows(i)
      reads this`chunks, this`disk, this`Repr, Repr
    {
      var c := chunks[i];
      disk[i] == Piece(c.chunkBegin, c.store[..][c.srcOffset..c.srcOffset + (c.chunkEnd - c.chunkBegin)])
    }

    lemma SliceAt(i: nat)
      requires i < |chunks| == |disk| && Shows(i)
      ensures Slice(i)
    {
    }

    lemma BeginsPositive()
      requires ChunksOk() && |chunks| > 0 && chunks[0].chunkBegin < chunks[0].chunkEnd
      ensures forall i :: 0 < i < |chunks| ==> chunks[i].chunkBegin > 0
    {
      forall i | 0 < i < |chunks|
        ensures chunks[i].chunkBegin > 0
      {
        ChunkAt(0);
        ChunkAt(i);
        assert disk[0].End() <= disk[i].begin;
      }
    }

    twostate predicate FieldsMoved(c: MetaChunk, stays: bool, data2: array<uint8>, d: nat)
      reads this, c
    {
      && c.srcOffset == old(c.srcOffset)
      && c.store == (if |chunks| > 0 && c == chunks[0] then data2 else old(c.store))
      && c.chunkBegin == old(c.chunkBegin) + (if stays then 0 else d)
      && c.chunkEnd == old(c.chunkEnd) + d
    }

    method MoveFields(data2: array<uint8>, d: nat)
      requires Separate()
      requires |chunks| > 0 && chunks[0].chunkBegin == 0
      requires forall i :: 0 < i < |chunks| ==> chunks[i].chunkBegin > 0
      modifies chunks
      ensures forall i :: 0 <= i < |chunks| ==> FieldsMoved(chunks[i], i == 0, data2, d)
    {
      chunks[0].store := data2;
      var it := 0;
      while it < |chunks|
        invariant 0 <= it <= |chunks|
        invariant forall i :: 0 <= i < it ==> FieldsMoved(chunks[i], i == 0, data2, d)
        invariant forall i :: it <= i < |chunks| ==> FieldsMoved(chunks[i], true, data2, 0)
      {
        if chunks[it].chunkBegin != 0 {
          chunks[it].chunkBegin := chunks[it].chunkBegin + d;
        }
        chunks[it].chunkEnd := chunks[it].chunkEnd + d;
        it := it + 1;
      }
    }

    /** Stores an entry behind the used ones, if the map has room by `maxPartitions`; else does nothing. */
    method AddPartition(newPart: Entry)
      requires HasMap()
      modifies this`disk, this`usedPartitions, chunks[0].store
      ensures HasMap()
      ensures var es := if old(usedPartitions) < maxPartitions then [newPart] else [];
              && usedPartitions == old(usedPartitions) + |es|
              && ApmEntries.Appended(old(Map()), Map(), old(usedPartitions), es)
              && disk == old(disk)[0 := Piece(0, Map())]
    {
      hide ApmEntries.Appended, MapOk, Laid, Size, MetaChunk.Window;
      MapBytes();
      MapOkFacts(Map(), usedPartitions, maxPartitions);
      if usedPartitions >= maxPartitions {
        ApmEntries.AppendedNone(Map(), usedPartitions);
        return;
      }
      ApmEntries.AddEntry(chunks[0].store, usedPartitions, newPart);
      ApmEntries.AppendedMapOk(old(Map()), chunks[0].store[..], usedPartitions, maxPartitions, [newPart]);
      FirstReplaced(disk, chunks[0].store[..], 0);
      disk := disk[0 := Piece(0, chunks[0].store[..])];
      usedPartitions := usedPartitions + 1;
      forall j | 0 <= j < |chunks|
        ensures Shows(j)
      {
        assert old(Shows(j));
        if j == 0 {
          WholeStore(chunks[0]);
        }
      }
    }

    /** Writes the size of the disk into block 0. */
    method SetBlockCount()
      requires ChunksOk() && |chunks| > 0 && MapChunk() && |Map()| >= BLOCK && Block0Ok(Map())
      modifies this`disk, chunks[0].store
      ensures ChunksOk() && MapChunk()
      ensures Map() == BigEndian.Put32(old(Map()), 4, BlocksFor(metaImageSize)) && disk == old(disk)[0 := Piece(0, Map())]
      ensures Size(disk) == old(Size(disk))
    {
      hide Laid, Size, BigEndian.Put32, MetaChunk.Window;
      MapBytes();
      BigEndian.Write32(chunks[0].store, 4, BlocksFor(metaImageSize));
      FirstReplaced(disk, chunks[0].store[..], 0);
      disk := disk[0 := Piece(0, chunks[0].store[..])];
      forall j | 0 <= j < |chunks|
        ensures Shows(j)
      {
        assert old(Shows(j));
        if j == 0 {
          WholeStore(chunks[0]);
        }
      }
    }

    constructor ()
      ensures ChunksOk() && chunks == [] && disk == [] && metaImageSize == 0
      ensures usedPartitions == 0 == maxPartitions && Repr == {}
    {
      chunks, metaImageSize, usedPartitions, maxPartitions := [], 0, 0, 0;
      disk, Repr := [], {};
    }

    /**
     Starts an empty disk with the contents of the driver file: block 0, a map whose last entry is
     a sample volume that the first added partition replaces, and the drivers.
     */
    method LoadMap(data: array<uint8>)
      requires ChunksOk() && chunks == [] && data.Length % 512 == 0 && data.Length >= 2 * BLOCK
      requires Field(data[..], 1, MAP_BLK_CNT) >= 2
      requires MapOk(data[..], Field(data[..], 1, MAP_BLK_CNT) - 1, Field(data[..], 1, PART_BLK_CNT))
      modifies this
      ensures HasMap() && Map() == data[..] && fresh(Repr - {data}) && data in Repr
      ensures usedPartitions == BigEndian.Get32(data[..], 512 + 4) - 1 && maxPartitions == BigEndian.Get32(data[..], 512 + 12)
    {
      metaImageSize := data.Length;
      usedPartitions := Field(data[..], 1, MAP_BLK_CNT) - 1;
      maxPartitions := Field(data[..], 1, PART_BLK_CNT);
      var partitionMap := new MetaChunk(true, data);
      chunks := [partitionMap];
      disk, Repr := [Piece(0, data[..])], {partitionMap, data};
      WholeStore(partitionMap);
    }

    /**
     Puts a chunk at the end of the disk and makes the size a whole number of blocks. As the chunk
     begins where the disk ended, the list stays in order and the sorting after it changes nothing.
     */
    method AppendChunk(file: MetaChunk)
      requires ChunksOk() && (chunks == [] || HasMap())
      requires file.Ok() && file !in Repr && file.store !in Repr && file.chunkBegin == metaImageSize
      modifies this`chunks, this`disk, this`Repr, this`metaImageSize, set c | c in chunks :: c.store
      ensures chunks == old(chunks) + [file] && Repr == old(Repr) + {file, file.store}
      ensures metaImageSize == old(metaImageSize) + RoundUp(file.chunkEnd - file.chunkBegin)
      ensures ChunksOk() && |disk| == |chunks| && disk[|disk| - 1] == old(file.Window())
      ensures old(chunks) == [] ==> disk == [old(file.Window())]
      ensures old(chunks) != [] ==> HasMap() && Map() == BigEndian.Put32(old(Map()), 4, BlocksFor(metaImageSize))
                                    && disk == old(disk)[0 := Piece(0, Map())] + [old(file.Window())]
    {
      hide Laid, MapOk, BigEndian.Put32, MetaChunk.Window;
      FileWindow(file);
      ghost var w := file.Window();
      metaImageSize := metaImageSize + (file.chunkEnd - file.chunkBegin + 512 - 1) / 512 * 512;
      if |chunks| > 0 {
        MapBytes();
        MapOkFacts(Map(), usedPartitions, maxPartitions);
        StoreDiffers(file.store, 0);
        SetBlockCount();
      }
      PushChunk(file);
      if |chunks| > 1 {
        MapOkKeepsCount(old(Map()), Map(), BlocksFor(metaImageSize), usedPartitions, maxPartitions);
      }
    }

    method PushChunk(file: MetaChunk)
      requires ChunksOk() && file.Ok() && file !in Repr && file.store !in Repr && Size(disk) <= file.chunkBegin
      modifies this`chunks, this`disk, this`Repr
      ensures ChunksOk() && chunks == old(chunks) + [file] && disk == old(disk) + [file.Window()]
      ensures Repr == old(Repr) + {file, file.store}
    {
      hide Laid, MetaChunk.Window;
      FileWindow(file);
      ghost var w := file.Window();
      PieceAdded(disk, w, 0);
      chunks := chunks + [file];
      disk, Repr := disk + [w], Repr + {file, file.store};
      forall j | 0 <= j < |chunks|
        ensures Shows(j) && (j < |chunks| - 1 ==> chunks[j] != file && chunks[j].store != file.store)
      {
        if j < |chunks| - 1 {
          assert old(Shows(j));
        }
      }
    }

    lemma FileWindow(file: MetaChunk)
      requires file.Ok()
      ensures file.Window().begin == file.chunkBegin && file.Window().End() == file.chunkEnd
    {
    }

    /** Collects the partitions to take over from an image, and the stretch of the image they span. */
    method Gather(file: MetaChunk) returns (partitions: seq<Entry>, blk: nat, diskBegin: nat, diskEnd: nat)
      requires file.Ok() && file.chunkBegin == 0 && HoldsMap(file.Window().bytes)
      ensures var img := file.Window().bytes;
              && partitions == Taken(img) && blk == BlockSize(img)
              && diskBegin == DiskBegin(partitions, blk, |img|) && diskEnd == DiskEnd(partitions, blk, |img|)
    {
      hide Wanted, BigEndian.Get16, BigEndian.Get32, TakenFrom, TakenAfter, DiskBegin, DiskEnd, MetaChunk.Window;
      FileWindow(file);
      ghost var img := file.Window().bytes;
      ghost var n := BigEndian.Get32(EntryAt(img, 1), MAP_BLK_CNT);
      var block0 := ReadBlock(file, 0);
      BigEndian.SameField16(img, block0, 2);
      blk := BigEndian.Get16(block0, 2);
      var offset := blk;
      var partNum, numPartitions := 1, 0;
      partitions, diskBegin, diskEnd := [], TWO_64 - 1, 0;
      ghost var all := Taken(img);
      EmptyStretch(blk, file.chunkEnd);
      while true
        invariant partNum >= 1 && (partNum == 1 || (partNum <= n && numPartitions == n)) && offset == partNum * blk
        invariant all == partitions + TakenFrom(img, partNum, n)
        invariant diskBegin == DiskBegin(partitions, blk, |img|) && diskEnd == DiskEnd(partitions, blk, |img|)
        decreases n + 1 - partNum
      {
        var part: Entry := ReadBlock(file, offset);
        assert part == EntryAt(img, partNum);
        TakenStep(img, partNum, n);
        if BigEndian.Get16(part, 0) != PM_SIG {
          assert all == partitions;
          break;
        }
        if partNum == 1 {
          numPartitions := BigEndian.Get32(part, MAP_BLK_CNT);
        }
        if Wanted(part) {
          diskBegin, diskEnd := Stretch(partitions, part, blk, file.chunkEnd, diskBegin, diskEnd);
          partitions := partitions + [part];
        }
        assert all == partitions + TakenAfter(img, partNum, n);
        NextBlock(partNum, blk);
        offset := offset + blk;
        partNum := partNum + 1;
        if partNum > numPartitions {
          NoneAfter(img, partNum - 1, n);
          assert all == partitions;
          break;
        }
        MoreAfter(img, partNum - 1, n);
      }
    }

    static lemma NextBlock(k: int, blk: int)
      ensures (k + 1) * blk == k * blk + blk
    {
    }

    /** Reads one block of an image file. */
    method ReadBlock(file: MetaChunk, offset: nat) returns (block: seq<uint8>)
      requires file.Ok() && offset + BLOCK <= |file.Window().bytes|
      ensures block == file.Window().bytes[offset..offset + BLOCK]
    {
      var buf := new uint8[BLOCK];
      file.Read(buf, 0, offset + file.srcOffset, BLOCK);
      block := buf[..];
    }

    lemma MapFacts()
      requires HasMap()
      ensures |chunks| > 0 && |disk| > 0 && disk[0].begin == 0
      ensures usedPartitions <= maxPartitions && (usedPartitions + 1) * BLOCK <= |Map()|
    {
      MapBytes();
    }

    /** Adds the new entries of the gathered partitions, as far as there is room. */
    method AddAll(partitions: seq<Entry>, blk: nat, chunkBegin: nat, diskBegin: nat)
      requires HasMap()
      modifies this`disk, this`usedPartitions, chunks[0].store
      ensures HasMap()
      ensures var news := News(Placed(partitions, blk, chunkBegin, diskBegin));
              var n := Min(|news|, maxPartitions - old(usedPartitions));
              && usedPartitions == old(usedPartitions) + n
              && ApmEntries.Appended(old(Map()), Map(), old(usedPartitions), news[..n])
              && disk == old(disk)[0 := Piece(0, Map())]
    {
      hide HasMap, ApmEntries.Appended, Relocated, Placeable, Placed, MapOk;
      ghost var placed := [];
      PlacedNone(partitions, blk, chunkBegin, diskBegin);
      MapFacts();
      ApmEntries.AppendedNone(Map(), usedPartitions);
      var it := 0;
      while it < |partitions|
        invariant 0 <= it <= |partitions| && HasMap() && |disk| > 0 && usedPartitions <= maxPartitions
        invariant placed == News(Placed(partitions[..it], blk, chunkBegin, diskBegin))
        invariant usedPartitions == old(usedPartitions) + Min(|placed|, maxPartitions - old(usedPartitions))
        invariant ApmEntries.Appended(old(Map()), Map(), old(usedPartitions), placed[..Min(|placed|, maxPartitions - old(usedPartitions))])
        invariant disk == old(disk)[0 := Piece(0, Map())]
      {
        PlacedStep(partitions, it, blk, chunkBegin, diskBegin);
        var e := partitions[it];
        if Placeable(e, blk, chunkBegin, diskBegin) {
          var r := Relocated(e, blk, chunkBegin, diskBegin);
          ghost var before := Map();
          MapFacts();
          AddPartition(r);
          MapFacts();
          OneMoreAppended(old(Map()), before, Map(), old(usedPartitions), maxPartitions, placed, r);
          placed := placed + [r];
        }
        it := it + 1;
      }
      assert partitions[..|partitions|] == partitions;
      assert placed[..|placed|] == placed;
    }

    /** The disk, its size and its used entries. */
    ghost function Now(): State
      reads this`disk, this`metaImageSize, this`usedPartitions
    {
      State(disk, metaImageSize, usedPartitions)
    }

    /** A file that is not part of the disk. */
    ghost predicate Foreign(file: MetaChunk)
      reads this`Repr, file
    {
      file.Ok() && file !in Repr && file.store !in Repr
    }

    lemma NotInDisk(file: MetaChunk)
      requires ChunksOk() && Foreign(file)
      ensures forall c :: c in chunks ==> c in Repr && c.store in Repr && c != file && c.store != file.store
    {
      forall c | c in chunks
        ensures c in Repr && c.store in Repr && c != file && c.store != file.store
      {
        var i :| 0 <= i < |chunks| && chunks[i] == c;
        assert Shows(i);
      }
    }

    /**
     Takes over the partitions of another image: their entries are added to the map, and the
     stretch of the image that holds them becomes a chunk behind the disk. An image whose wanted
     partitions are all out of range has no such stretch.
     */
    method AddPartitionsFromImage(file: MetaChunk)
      requires HasMap() && Foreign(file) && file.chunkBegin == 0 && HoldsMap(file.Window().bytes)
      requires var img := file.Window().bytes;
               Taken(img) == [] || exists e :: e in Taken(img) && InRange(e, BlockSize(img), |img|)
      modifies this, Repr, file
      ensures HasMap() && maxPartitions == old(maxPartitions)
      ensures old(Taken(file.Window().bytes)) == [] ==> Now() == old(Now())
      ensures old(Taken(file.Window().bytes)) != [] ==> TakenOver(old(Now()), Now(), maxPartitions, old(file.Window().bytes))
    {
      hide HasMap, ChunksOk, Taken, Placed, DiskBegin, DiskEnd, InRange, RoomMade, Extended, TakenOver, MetaChunk.Window, ByteAt;
      ghost var img, a := file.Window().bytes, Now();
      var partitions, blk, diskBegin, diskEnd := Gather(file);
      if |partitions| > 0 {
        ghost var e :| e in Taken(img) && InRange(e, BlockSize(img), |img|);
        StretchHolds(partitions, blk, |img|, e);
        NarrowTo(file, diskBegin, diskEnd);
        InDisk(file);
        MakeRoom(file, |partitions|);
        ghost var r := Now();
        InDisk(file);
        ghost var m2 := ListAndAppend(file, partitions, blk, diskBegin);
        TakeoverHolds(a, r, m2, Now(), maxPartitions, img);
      }
    }

    lemma InDisk(file: MetaChunk)
      requires HasMap() && Foreign(file)
      ensures |chunks| > 0 && forall c :: c in chunks ==> c in Repr && c.store in Repr
    {
      NotInDisk(file);
    }

    lemma OkNow()
      requires HasMap()
      ensures Now().Ok(maxPartitions)
    {
      hide MapOk, Laid, Size, Shows, Separate;
      MapBytes();
    }

    /** Narrows the window of an image to the bytes from `diskBegin` to `diskEnd`. */
    method NarrowTo(file: MetaChunk, diskBegin: nat, diskEnd: nat)
      requires HasMap() && Foreign(file) && file.chunkBegin == 0 && diskBegin <= diskEnd <= |file.Window().bytes|
      modifies file
      ensures HasMap() && Foreign(file) && file.chunkBegin == 0
      ensures file.Window() == Piece(0, old(file.Window().bytes)[diskBegin..diskEnd])
    {
      hide HasMap, MetaChunk.Window;
      FileWindow(file);
      ghost var img := file.Window().bytes;
      file.AddSrcOffset(diskBegin);
      FileWindow(file);
      file.SetChunkSize(diskEnd - diskBegin);
      assert img[diskBegin..][..diskEnd - diskBegin] == img[diskBegin..diskEnd];
    }

    /** Reserves the entries, and moves the image behind the disk. */
    method MakeRoom(file: MetaChunk, wanted: nat)
      requires HasMap() && Foreign(file)
      modifies this`metaImageSize, this`disk, this`Repr, chunks, file
      ensures HasMap() && Foreign(file) && usedPartitions == old(usedPartitions) && fresh(Repr - old(Repr))
      ensures file.Window() == old(file.Window()).(begin := metaImageSize) && file.chunkBegin == metaImageSize
      ensures RoomMade(old(Now()), Now(), maxPartitions, wanted)
      ensures metaImageSize == old(metaImageSize) + Growth(usedPartitions, maxPartitions, wanted) * BLOCK
    {
      hide Grown, MovedUp, ByteAt, MetaChunk.Window, Shows, Separate, Laid, Size, MapOk, Growth, State.Ok, MapChunk;
      OkNow();
      NotInDisk(file);
      ReservePartitions(wanted);
      OkNow();
      file.SetChunkBegin(metaImageSize);
      FileWindow(file);
    }

    /** Adds the entries and appends the image; `m2` is the map between the two. */
    method ListAndAppend(file: MetaChunk, partitions: seq<Entry>, blk: nat, diskBegin: nat) returns (ghost m2: seq<uint8>)
      requires HasMap() && Foreign(file) && file.chunkBegin == metaImageSize
      modifies this, set c | c in chunks :: c.store
      ensures HasMap() && maxPartitions == old(maxPartitions)
      ensures var placed := Placed(partitions, blk, old(metaImageSize), diskBegin);
              Extended(old(Now()), m2, Now(), maxPartitions, placed, old(file.Window()))
    {
      hide ApmEntries.Appended, Placed, BigEndian.Put32, MetaChunk.Window, Shows, Separate, Laid, Size, MapOk;
      OkNow();
      NotInDisk(file);
      FileWindow(file);
      assert chunks[0] in chunks;
      AddAll(partitions, blk, file.chunkBegin, diskBegin);
      m2 := Map();
      MapOkFacts(m2, usedPartitions, maxPartitions);
      AppendChunk(file);
      OkNow();
    }

    /**
     Adds an image of a single volume as one partition. `r` is the disk after room was made for it and
     `m2` the map before the image is appended; a volume with too many blocks is left out.
     */
    method AddPartitionFromImage(file: MetaChunk, partType: seq<uint8>, name: seq<uint8>) returns (ghost r: State, ghost m2: seq<uint8>)
      requires HasMap() && Foreign(file)
      modifies this, Repr, file
      ensures HasMap() && maxPartitions == old(maxPartitions) && RoomMade(old(Now()), r, maxPartitions, 1)
      ensures var w := old(file.Window()).(begin := r.size);
              var e := VolumeEntry(partType, name, Wrap32(r.size / 512), Wrap32(BlocksOf(|w.bytes|)));
              if VolumeFits(|w.bytes|, r.size) then Extended(r, m2, Now(), maxPartitions, [(e, e)], w) else Now() == r
    {
      hide RoomMade, Extended, MetaChunk.Window, ByteAt, Shows, Separate, Laid, Size, MapOk, State.Ok, MapChunk, VolumeEntry;
      InDisk(file);
      FileWindow(file);
      MakeRoom(file, 1);
      r, m2 := Now(), [];
      FileWindow(file);
      var blockCount := BlocksOf(file.chunkEnd - file.chunkBegin);
      if blockCount >= LIMIT {
        return;
      }
      var blockStart := file.chunkBegin / 512;
      if blockCount + blockStart >= LIMIT {
        return;
      }
      InDisk(file);
      m2 := ListVolume(file, VolumeEntry(partType, name, blockStart, blockCount));
    }

    /** Adds the entry of a volume and appends its image. */
    method ListVolume(file: MetaChunk, e: Entry) returns (ghost m2: seq<uint8>)
      requires HasMap() && Foreign(file) && file.chunkBegin == metaImageSize
      modifies this, set c | c in chunks :: c.store
      ensures HasMap() && maxPartitions == old(maxPartitions)
      ensures Extended(old(Now()), m2, Now(), maxPartitions, [(e, e)], old(file.Window()))
    {
      hide ApmEntries.Appended, BigEndian.Put32, MetaChunk.Window, Shows, Separate, Laid, Size, MapOk;
      OkNow();
      NotInDisk(file);
      FileWindow(file);
      assert chunks[0] in chunks;
      MapFacts();
      ghost var n := Min(1, maxPartitions - usedPartitions);
      assert News([(e, e)])[..n] == if usedPartitions < maxPartitions then [e] else [];
      AddPartition(e);
      m2 := Map();
      MapOkFacts(m2, usedPartitions, maxPartitions);
      AppendChunk(file);
      OkNow();
    }
  }
}
