/**
 The chunks of utils/metaimgfile.h: windows onto a backing store, each placed at a range of the
 virtual disk. The store is the byte array of a memory chunk or the contents of an image file;
 an image file is taken to deliver and to accept every byte it is asked for.
 */
module MetaChunks {
  import opened Words
  import opened DiskLayout

  class MetaChunk {
    const isRam: bool
    var store: array<uint8>
    var chunkBegin: nat
    var chunkEnd: nat
    var srcOffset: nat

    /** A chunk over a whole store: FileMetaChunk and RamMetaChunk. */
    constructor (isRam: bool, store: array<uint8>)
      ensures this.isRam == isRam && this.store == store
      ensures chunkBegin == 0 && chunkEnd == store.Length && srcOffset == 0
      ensures Ok()
    {
      this.isRam, this.store := isRam, store;
      chunkBegin, chunkEnd, srcOffset := 0, store.Length, 0;
    }

    /** The chunk is a range of the disk and its window lies within the store. */
    ghost predicate Ok()
      reads this
    {
      chunkBegin <= chunkEnd && srcOffset + (chunkEnd - chunkBegin) <= store.Length
    }

    ghost function Window(): Piece
      requires Ok()
      reads this, store
    {
      Piece(chunkBegin, store[srcOffset..srcOffset + (chunkEnd - chunkBegin)])
    }

    method SetChunkBegin(begin: nat)
      requires Ok()
      modifies this`chunkBegin, this`chunkEnd
      ensures Ok() && Window() == old(Window()).(begin := begin)
    {
      chunkEnd := begin + chunkEnd - chunkBegin;
      chunkBegin := begin;
    }

    method SetChunkSize(size: nat)
      requires srcOffset + size <= store.Length
      modifies this`chunkEnd
      ensures Ok() && Window() == Piece(chunkBegin, store[srcOffset..srcOffset + size])
      ensures old(Ok()) && size <= old(chunkEnd) - chunkBegin ==> Window() == old(Window()).(bytes := old(Window()).bytes[..size])
    {
      chunkEnd := chunkBegin + size;
    }

    method AddSrcOffset(offset: nat)
      requires Ok() && offset <= chunkEnd - chunkBegin
      modifies this`srcOffset, this`chunkEnd
      ensures Ok() && Window() == old(Window()).(bytes := old(Window()).bytes[offset..])
      ensures srcOffset == old(srcOffset) + offset
    {
      srcOffset := srcOffset + offset;
      chunkEnd := chunkEnd - offset;
    }

    /** Copies `length` bytes of the store from `offset` on to `buf` at `at`. */
    method Read(buf: array<uint8>, at: nat, offset: nat, length: nat)
      requires at + length <= buf.Length && offset + length <= store.Length && buf != store
      modifies buf
      ensures forall k :: at <= k < at + length ==> buf[k] == store[offset + (k - at)]
      ensures forall k :: 0 <= k < buf.Length && !(at <= k < at + length) ==> buf[k] == old(buf[k])
    {
      forall k | at <= k < at + length {
        buf[k] := store[offset + (k - at)];
      }
    }

    /** Copies `length` bytes of `buf` from `at` on into the store at `offset`. */
    method Write(buf: array<uint8>, at: nat, offset: nat, length: nat)
      requires at + length <= buf.Length && offset + length <= store.Length && buf != store
      modifies store
      ensures forall k :: offset <= k < offset + length ==> store[k] == buf[at + (k - offset)]
      ensures forall k :: 0 <= k < store.Length && !(offset <= k < offset + length) ==> store[k] == old(store[k])
    {
      forall k | offset <= k < offset + length {
        store[k] := buf[at + (k - offset)];
      }
    }

    /** Writes at disk position `from`: the window is overlaid with the bytes. */
    method WriteAt(buf: array<uint8>, at: nat, from: nat, length: nat)
      requires Ok() && chunkBegin <= from && from + length <= chunkEnd && at + length <= buf.Length && buf != store
      modifies store
      ensures Ok() && Window() == old(Window()).Overlay(from, buf[at..at + length])
    {
      ghost var w := Window().Overlay(from, buf[at..at + length]);
      Write(buf, at, from - chunkBegin + srcOffset, length);
      assert forall k :: 0 <= k < |w.bytes| ==> Window().bytes[k] == w.bytes[k];
    }
  }

  lemma WindowIs(c: MetaChunk, bytes: seq<uint8>, size: nat)
    requires c.store[..] == bytes && c.chunkEnd == c.chunkBegin + size && c.srcOffset + size <= |bytes|
    ensures c.Ok() && c.Window() == Piece(c.chunkBegin, bytes[c.srcOffset..c.srcOffset + size])
  {
  }

  lemma WholeStore(c: MetaChunk)
    requires c.chunkBegin == 0 == c.srcOffset && c.chunkEnd == c.store.Length
    ensures c.Ok() && c.Window() == Piece(0, c.store[..])
  {
  }
}
