/**
 Which entries of an image's partition map are taken over, in which order, and what they become, told
 by the bytes of the image: `blk` is the block size that block 0 names at 2, `n` the count at 4 of the
 first entry.
 */
module ApmListing {
  import opened Words
  import opened ApmBytes
  import opened BigEndian
  import opened ApmGrowth
  import opened ApmImages
  import opened Takeover

  // ----- The type of a partition

  /** The type field, bytes 48 to 80, holds the text followed by a zero. */
  predicate TypeIs(e: Entry, text: string) {
    |text| < 32 && e[48 + |text|] == 0 && forall i :: 0 <= i < |text| ==> e[48 + i] == text[i] as int
  }

  /** The map itself, drivers, patches and free space. */
  predicate LeftOut(e: Entry) {
    || TypeIs(e, "Apple_partition_map") || TypeIs(e, "Apple_Driver43") || TypeIs(e, "Apple_Driver_ATA")
    || TypeIs(e, "Apple_FWDriver") || TypeIs(e, "Apple_Driver_IOKit") || TypeIs(e, "Apple_Patches") || TypeIs(e, "Apple_Void")
  }

  lemma ConsEqual(x: int, xs: seq<int>, t: seq<int>)
    requires t != []
    ensures [x] + xs == t <==> x == t[0] && xs == t[1..]
  {
    assert t == [t[0]] + t[1..];
    assert ([x] + xs)[1..] == xs && ([x] + xs)[0] == x;
  }

  lemma {:induction false} CStringIs(s: seq<uint8>, t: seq<int>)
    requires forall i :: 0 <= i < |t| ==> t[i] != 0
    ensures CString(s) == t <==> |t| <= |s| && s[..|t|] == t && (|t| == |s| || s[|t|] == 0)
    decreases |s|
  {
    if s != [] && s[0] != 0 && t != [] {
      CStringIs(s[1..], t[1..]);
      ConsEqual(s[0], CString(s[1..]), t);
      if |t| <= |s| {
        ConsEqual(s[0], s[1..][..|t| - 1], t);
        assert s[..|t|] == [s[0]] + s[1..][..|t| - 1];
      }
    }
  }

  lemma TypeText(e: Entry, text: string)
    requires |text| < 32 && forall i :: 0 <= i < |text| ==> text[i] as int != 0
    ensures CString(e[48..80]) == Ascii(text) <==> TypeIs(e, text)
  {
    var s := e[48..80];
    CStringIs(s, Ascii(text));
    assert s[..|text|] == Ascii(text) <==> forall i :: 0 <= i < |text| ==> s[i] == text[i] as int;
  }

  lemma WantedIff(e: Entry)
    ensures Wanted(e) <==> !LeftOut(e)
  {
    hide CString, Ascii, TypeIs;
    TypeText(e, "Apple_partition_map");
    TypeText(e, "Apple_Driver43");
    TypeText(e, "Apple_Driver_ATA");
    TypeText(e, "Apple_FWDriver");
    TypeText(e, "Apple_Driver_IOKit");
    TypeText(e, "Apple_Patches");
    TypeText(e, "Apple_Void");
  }

  // ----- The entries that are taken

  /** Entry `k` of the image, and whether the map reaches it: within the count, or the first, and all signatures up to it are right. */
  predicate Reached(img: seq<uint8>, from: nat, k: nat, blk: nat, n: nat) {
    && from <= k && (k == from || k <= n) && k * blk + 512 <= |img|
    && forall i :: from <= i <= k ==> i * blk + 2 <= |img| && img[i * blk] == 0x50 && img[i * blk + 1] == 0x4D
  }

  function At(img: seq<uint8>, k: nat, blk: nat): Entry
    requires k * blk + 512 <= |img|
  {
    img[k * blk..k * blk + 512]
  }

  ghost predicate Increasing(ks: seq<nat>) {
    forall i, j :: 0 <= i < j < |ks| ==> ks[i] < ks[j]
  }

  /** The entries `es` are those of the image at `ks`. */
  ghost predicate Come(es: seq<Entry>, img: seq<uint8>, blk: nat, ks: seq<nat>) {
    |es| == |ks| && forall i :: 0 <= i < |es| ==> ks[i] * blk + 512 <= |img| && es[i] == At(img, ks[i], blk)
  }

  /** Entry `k` is reached from `from` on and not left out. */
  predicate Chosen(img: seq<uint8>, from: nat, k: nat, blk: nat, n: nat) {
    Reached(img, from, k, blk, n) && !LeftOut(At(img, k, blk))
  }

  /** `ks` are exactly the chosen entries, in order. */
  ghost predicate Takes(img: seq<uint8>, from: nat, blk: nat, n: nat, ks: seq<nat>) {
    Increasing(ks) && forall k: nat :: k in ks <==> Chosen(img, from, k, blk, n)
  }

  lemma NoneReached(img: seq<uint8>, from: nat, blk: nat, n: nat)
    requires from * blk + 512 <= |img| && (img[from * blk] != 0x50 || img[from * blk + 1] != 0x4D)
    ensures Takes(img, from, blk, n, [])
  {
    hide LeftOut;
    forall k: nat
      ensures !Reached(img, from, k, blk, n)
    {
    }
  }

  lemma FirstReached(img: seq<uint8>, from: nat, blk: nat, n: nat)
    requires from * blk + 512 <= |img| && img[from * blk] == 0x50 && img[from * blk + 1] == 0x4D
    ensures Reached(img, from, from, blk, n)
    ensures n <= from ==> forall k: nat :: Reached(img, from, k, blk, n) ==> k == from
    ensures n > from ==> forall k: nat :: k > from ==> (Reached(img, from, k, blk, n) <==> Reached(img, from + 1, k, blk, n))
  {
    forall k: nat | k > from && n > from
      ensures Reached(img, from, k, blk, n) <==> Reached(img, from + 1, k, blk, n)
    {
      if Reached(img, from + 1, k, blk, n) {
        forall i | from <= i <= k
          ensures i * blk + 2 <= |img| && img[i * blk] == 0x50 && img[i * blk + 1] == 0x4D
        {
          assert i == from || from + 1 <= i <= k;
        }
      }
    }
  }

  lemma FirstChosen(img: seq<uint8>, from: nat, k: nat, blk: nat, n: nat)
    requires from * blk + 512 <= |img| && img[from * blk] == 0x50 && img[from * blk + 1] == 0x4D
    ensures Chosen(img, from, from, blk, n) <==> !LeftOut(At(img, from, blk))
    ensures Chosen(img, from, k, blk, n) ==> k >= from && (n <= from ==> k == from)
    ensures n > from && k > from ==> (Chosen(img, from, k, blk, n) <==> Chosen(img, from + 1, k, blk, n))
    ensures Chosen(img, from + 1, k, blk, n) ==> k > from
  {
    hide LeftOut;
    FirstReached(img, from, blk, n);
  }

  lemma ComeTogether(img: seq<uint8>, blk: nat, es: seq<Entry>, ks: seq<nat>, more: seq<Entry>, others: seq<nat>)
    requires Come(es, img, blk, ks) && Come(more, img, blk, others)
    ensures Come(es + more, img, blk, ks + others)
  {
    hide At;
  }

  lemma OneTaken(img: seq<uint8>, from: nat, blk: nat, n: nat, rest: seq<nat>)
    requires from * blk + 512 <= |img| && img[from * blk] == 0x50 && img[from * blk + 1] == 0x4D
    requires if n <= from then rest == [] else Takes(img, from + 1, blk, n, rest)
    ensures Takes(img, from, blk, n, (if LeftOut(At(img, from, blk)) then [] else [from]) + rest)
  {
    hide LeftOut, Chosen, At;
    var ks := (if LeftOut(At(img, from, blk)) then [] else [from]) + rest;
    forall k: nat
      ensures k in ks <==> Chosen(img, from, k, blk, n)
      ensures k in rest ==> k > from
    {
      FirstChosen(img, from, k, blk, n);
      assert k in ks <==> (k == from && !LeftOut(At(img, from, blk))) || k in rest;
    }
    assert forall i :: 0 <= i < |rest| ==> rest[i] in rest;
  }

  lemma {:induction false} TakenFromExactly(img: seq<uint8>, from: nat, n: nat) returns (ks: seq<nat>)
    requires |img| >= BLOCK && from >= 1 && (forall i :: from <= i <= n || i == from ==> i * BlockSize(img) + BLOCK <= |img|)
    ensures Come(TakenFrom(img, from, n), img, BlockSize(img), ks) && Takes(img, from, BlockSize(img), n, ks)
    decreases n - from
  {
    hide Wanted, LeftOut, BlockSize, Takes, Come;
    var blk := BlockSize(img);
    var e := EntryAt(img, from);
    if Get16(e, 0) != PM_SIG {
      ks := [];
      NoneReached(img, from, blk, n);
      NoneCome(img, blk);
    } else {
      WantedIff(e);
      var rest: seq<nat>, more: seq<Entry> := [], [];
      if from + 1 > n {
        NoneCome(img, blk);
      } else {
        rest := TakenFromExactly(img, from + 1, n);
        more := TakenFrom(img, from + 1, n);
      }
      OneTaken(img, from, blk, n, rest);
      OneComes(img, blk, from);
      ks := (if LeftOut(e) then [] else [from]) + rest;
      ComeTogether(img, blk, if LeftOut(e) then [] else [e], if LeftOut(e) then [] else [from], more, rest);
    }
  }

  lemma NoneCome(img: seq<uint8>, blk: nat)
    ensures Come([], img, blk, [])
  {
  }

  lemma OneComes(img: seq<uint8>, blk: nat, k: nat)
    requires k * blk + 512 <= |img|
    ensures Come([], img, blk, []) && Come([At(img, k, blk)], img, blk, [k])
  {
  }

  /** The image holds its map exactly when it holds the last entry of the count, and at least the first. */
  lemma HoldsMapIff(img: seq<uint8>)
    ensures HoldsMap(img) <==>
            && |img| >= 512 && Get16(img, 2) + 512 <= |img|
            && Get32(img, Get16(img, 2) + 4) * Get16(img, 2) + 512 <= |img|
  {
    if |img| >= 512 && Get16(img, 2) + 512 <= |img| {
      var blk: nat, n: nat := Get16(img, 2), Get32(img, Get16(img, 2) + 4);
      assert Get32(EntryAt(img, 1), MAP_BLK_CNT) == n;
      hide Get16, Get32;
      if n * blk + 512 <= |img| {
        forall k | 1 <= k <= n
          ensures k * blk <= n * blk
        {
          Smaller(k, n, blk);
        }
      }
    }
  }

  lemma Smaller(k: nat, n: nat, blk: nat)
    requires k <= n
    ensures k * blk <= n * blk
  {
  }

  /**
   An entry is taken exactly when the map reaches it and its type is none of the seven; the entries are
   taken in the order of the map, each once.
   */
  lemma TakenExactly(img: seq<uint8>) returns (ks: seq<nat>)
    requires HoldsMap(img)
    ensures var blk := Get16(img, 2);
            var n := Get32(img, blk + 4);
            Come(Taken(img), img, blk, ks) && Takes(img, 1, blk, n, ks)
  {
    hide TakenFrom;
    ks := TakenFromExactly(img, 1, Get32(EntryAt(img, 1), MAP_BLK_CNT));
    assert Get32(EntryAt(img, 1), MAP_BLK_CNT) == Get32(img, BlockSize(img) + 4);
  }

  // ----- The entries that are listed

  /** The place of entry `k` in the stretch that begins at `db`, once that is at `cb` on the disk, on 64 bits. */
  function NewPlace(img: seq<uint8>, k: nat, blk: nat, cb: nat, db: nat): nat
    requires k * blk + 512 <= |img|
  {
    (cb + Get32(img, k * blk + 8) * blk - db) % 0x1_0000_0000_0000_0000
  }

  /** Its blocks and the number behind its last one fit 32 bits. */
  predicate Fits(img: seq<uint8>, k: nat, blk: nat, cb: nat, db: nat) {
    && k * blk + 512 <= |img|
    && var blocks := Get32(img, k * blk + 12) * blk / 512;
       blocks < 0xFFFF_FFFF && blocks + NewPlace(img, k, blk, cb, db) / 512 < 0xFFFF_FFFF
  }

  /** `r` is entry `k` of the image with the new start and length in blocks of 512 bytes. */
  ghost predicate Rewritten(r: Entry, img: seq<uint8>, k: nat, blk: nat, cb: nat, db: nat) {
    && k * blk + 512 <= |img|
    && Get32(r, 8) == NewPlace(img, k, blk, cb, db) / 512
    && Get32(r, 12) == Get32(img, k * blk + 12) * blk / 512 && Get32(r, 84) == Get32(r, 12)
    && forall j :: 0 <= j < 512 && !(8 <= j < 16) && !(84 <= j < 88) ==> r[j] == img[k * blk + j]
  }

  lemma FieldAt(img: seq<uint8>, k: nat, blk: nat, o: nat)
    requires k * blk + 512 <= |img| && o + 4 <= 512
    ensures Get32(At(img, k, blk), o) == Get32(img, k * blk + o)
  {
  }

  lemma FitsIff(img: seq<uint8>, k: nat, blk: nat, cb: nat, db: nat)
    requires k * blk + 512 <= |img|
    ensures Placeable(At(img, k, blk), blk, cb, db) <==> Fits(img, k, blk, cb, db)
    ensures Placeable(At(img, k, blk), blk, cb, db) ==> Rewritten(Relocated(At(img, k, blk), blk, cb, db), img, k, blk, cb, db)
  {
    hide Get32, Relocated;
    FieldAt(img, k, blk, 8);
    FieldAt(img, k, blk, 12);
    if Placeable(At(img, k, blk), blk, cb, db) {
      RelocatedFields(At(img, k, blk), blk, cb, db);
    }
  }

  /** `placed` are those of the first `n` entries at `js`, each with its new entry. */
  ghost predicate PlacedAt(placed: seq<(Entry, Entry)>, es: seq<Entry>, n: nat, blk: nat, cb: nat, db: nat, js: seq<nat>) {
    && n <= |es| && |placed| == |js| && Increasing(js)
    && (forall j: nat :: j in js <==> j < n && Placeable(es[j], blk, cb, db))
    && forall i :: 0 <= i < |js| ==> js[i] < n && Placeable(es[js[i]], blk, cb, db)
                                     && placed[i] == (es[js[i]], Relocated(es[js[i]], blk, cb, db))
  }

  lemma OnePlaced(placed: seq<(Entry, Entry)>, es: seq<Entry>, n: nat, blk: nat, cb: nat, db: nat, js: seq<nat>)
    requires PlacedAt(placed, es, n, blk, cb, db, js) && n < |es|
    ensures if Placeable(es[n], blk, cb, db)
            then PlacedAt(placed + [(es[n], Relocated(es[n], blk, cb, db))], es, n + 1, blk, cb, db, js + [n])
            else PlacedAt(placed, es, n + 1, blk, cb, db, js)
  {
    hide Placeable, Relocated;
    if Placeable(es[n], blk, cb, db) {
      forall j: nat
        ensures j in js + [n] <==> j < n + 1 && Placeable(es[j], blk, cb, db)
      {
        assert j in js + [n] <==> j in js || j == n;
      }
    }
  }

  /** The placed entries are those that fit, in order. */
  lemma {:induction false} PlacedExactly(es: seq<Entry>, n: nat, blk: nat, cb: nat, db: nat) returns (js: seq<nat>)
    requires n <= |es|
    ensures PlacedAt(Placed(es[..n], blk, cb, db), es, n, blk, cb, db, js)
    decreases n
  {
    hide Placeable, Relocated;
    if n == 0 {
      js := [];
    } else {
      js := PlacedExactly(es, n - 1, blk, cb, db);
      OnePlaced(Placed(es[..n - 1], blk, cb, db), es, n - 1, blk, cb, db, js);
      hide Placed, PlacedAt;
      PlacedStep(es, n - 1, blk, cb, db);
      js := js + if Placeable(es[n - 1], blk, cb, db) then [n - 1] else [];
    }
  }

  /**
   The new entries of an image are its chosen entries whose new place fits, in the order of the map, each
   once, and they are rewritten copies.
   */
  lemma NewEntriesExactly(a: State, max: nat, img: seq<uint8>) returns (ks: seq<nat>)
    requires HoldsMap(img)
    ensures var blk := Get16(img, 2);
            var n := Get32(img, blk + 4);
            var cb, db := ChunkBegin(a, max, img), DiskBegin(Taken(img), blk, |img|);
            && |ks| == |NewEntries(a, max, img)| && Increasing(ks)
            && (forall k: nat :: k in ks <==> Chosen(img, 1, k, blk, n) && Fits(img, k, blk, cb, db))
            && forall i :: 0 <= i < |ks| ==> Rewritten(NewEntries(a, max, img)[i].1, img, ks[i], blk, cb, db)
                                             && NewEntries(a, max, img)[i].0 == At(img, ks[i], blk)
  {
    hide Get32, Taken, Placed, DiskBegin, Growth, Chosen, Fits, Rewritten, Placeable, Relocated, At;
    var blk: nat, es := BlockSize(img), Taken(img);
    var cb, db := ChunkBegin(a, max, img), DiskBegin(es, blk, |img|);
    var all := TakenExactly(img);
    assert es[..|es|] == es;
    var js := PlacedExactly(es, |es|, blk, cb, db);
    ks := seq(|js|, i requires 0 <= i < |js| => all[js[i]]);
    forall i | 0 <= i < |js|
      ensures ks[i] in ks && Chosen(img, 1, ks[i], blk, Get32(img, blk + 4)) && Fits(img, ks[i], blk, cb, db)
      ensures Rewritten(NewEntries(a, max, img)[i].1, img, ks[i], blk, cb, db)
      ensures NewEntries(a, max, img)[i].0 == At(img, ks[i], blk)
    {
      assert all[js[i]] in all;
      FitsIff(img, ks[i], blk, cb, db);
    }
    forall k: nat | Chosen(img, 1, k, blk, Get32(img, blk + 4)) && Fits(img, k, blk, cb, db)
      ensures k in ks
    {
      var j :| 0 <= j < |all| && all[j] == k;
      FitsIff(img, k, blk, cb, db);
      assert j in js;
      var i :| 0 <= i < |js| && js[i] == j;
      assert ks[i] == k;
    }
  }
}
