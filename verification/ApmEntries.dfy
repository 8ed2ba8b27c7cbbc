/**
 Adding entries at the end of the used part of a partition map, as MetaImgFile::add_partition
 does: the entry is stored and every used entry learns the new count.
 */
module ApmEntries {
  import opened Words
  import opened ApmBytes
  import opened BigEndian
  import opened ApmGrowth
  import opened ApmImages

  /** Whether byte `j` belongs to the count field of one of the first `n` entries. */
  predicate IsCount(j: nat, n: nat) {
    1 <= j / 512 <= n && MAP_BLK_CNT <= j % 512 < MAP_BLK_CNT + 4
  }

  /**
   `r` is the map `s`, with `used` entries, after the entries `es` were added: they follow the used
   ones, all used entries carry the new count, and every other byte is unchanged.
   */
  ghost predicate Appended(s: seq<uint8>, r: seq<uint8>, used: nat, es: seq<Entry>) {
    var n := used + |es|;
    && |r| == |s| && (n + 1) * BLOCK <= |s|
    && (es == [] ==> r == s)
    && (es != [] ==> forall k :: 1 <= k <= n ==> Field(r, k, MAP_BLK_CNT) == n)
    && (forall j :: 0 <= j < |s| && !IsCount(j, n) && !(used < j / 512 <= n) ==> r[j] == s[j])
    && (forall j :: 0 <= j < |s| && !IsCount(j, n) && used < j / 512 <= n ==> r[j] == es[j / 512 - used - 1][j % 512])
  }

  /** The bytes of an entry, and their place in the map. */
  lemma Place(k: nat, o: nat)
    requires o < 512
    ensures (k * BLOCK + o) / 512 == k && (k * BLOCK + o) % 512 == o
  {
  }

  method AddEntry(a: array<uint8>, used: nat, e: Entry)
    requires (used + 2) * BLOCK <= a.Length && used + 1 < TWO_32
    modifies a
    ensures Appended(old(a[..]), a[..], used, [e])
  {
    hide Get32, Put32, IsCount;
    ghost var s := a[..];
    var slot := (used + 1) * BLOCK;
    forall j | slot <= j < slot + BLOCK {
      a[j] := e[j - slot];
    }
    var i := 1;
    NoCounts();
    while i <= used + 1
      invariant 1 <= i <= used + 2
      invariant forall k :: 1 <= k < i ==> Field(a[..], k, MAP_BLK_CNT) == used + 1
      invariant forall j :: 0 <= j < |s| && !IsCount(j, i - 1) ==> a[j] == if slot <= j < slot + BLOCK then e[j - slot] else s[j]
    {
      ghost var t := a[..];
      Write32(a, i * BLOCK + MAP_BLK_CNT, used + 1);
      CountStep(t, a[..], i, used + 1);
      i := i + 1;
    }
    EntryPlace(used, e, s, a[..]);
  }

  lemma NoCounts()
    ensures forall j :: !IsCount(j, 0)
  {
  }

  /** The same, byte by byte of the map. */
  lemma EntryPlace(used: nat, e: Entry, s: seq<uint8>, r: seq<uint8>)
    requires (used + 2) * BLOCK <= |s| == |r|
    requires forall j :: 0 <= j < |s| && !IsCount(j, used + 1) ==>
               r[j] == if (used + 1) * BLOCK <= j < (used + 1) * BLOCK + BLOCK then e[j - (used + 1) * BLOCK] else s[j]
    ensures forall j :: 0 <= j < |s| && !IsCount(j, used + 1) ==>
              r[j] == if used < j / 512 <= used + 1 then e[j % 512] else s[j]
  {
  }

  lemma CountStep(t: seq<uint8>, r: seq<uint8>, i: nat, n: uint32)
    requires i >= 1 && i * BLOCK + BLOCK <= |t| && r == Put32(t, i * BLOCK + MAP_BLK_CNT, n)
    ensures forall k :: 1 <= k < i ==> Field(r, k, MAP_BLK_CNT) == Field(t, k, MAP_BLK_CNT)
    ensures Field(r, i, MAP_BLK_CNT) == n
    ensures forall j :: 0 <= j < |t| && !IsCount(j, i) ==> r[j] == t[j] && !IsCount(j, i - 1)
  {
    hide Get32, Put32;
    PutGet(t, i * BLOCK + MAP_BLK_CNT, n);
    forall k | 1 <= k < i
      ensures Field(r, k, MAP_BLK_CNT) == Field(t, k, MAP_BLK_CNT)
    {
      SameField(t, r, k * BLOCK + MAP_BLK_CNT);
    }
  }

  lemma AppendedNone(s: seq<uint8>, used: nat)
    requires (used + 1) * BLOCK <= |s|
    ensures Appended(s, s, used, [])
  {
  }

  lemma AppendedLength(s: seq<uint8>, r: seq<uint8>, used: nat, es: seq<Entry>)
    requires Appended(s, r, used, es)
    ensures |r| == |s| && (used + |es| + 1) * BLOCK <= |r|
  {
  }

  lemma AppendedNothing(s: seq<uint8>, r: seq<uint8>, used: nat)
    requires Appended(s, r, used, [])
    ensures r == s
  {
  }

  lemma AppendedMore(s: seq<uint8>, r: seq<uint8>, t: seq<uint8>, used: nat, es: seq<Entry>, e: Entry)
    requires Appended(s, r, used, es) && Appended(r, t, used + |es|, [e])
    ensures Appended(s, t, used, es + [e])
  {
    hide Field;
  }

  /** A map stays a map. */
  lemma AppendedMapOk(s: seq<uint8>, r: seq<uint8>, used: nat, max: nat, es: seq<Entry>)
    requires MapOk(s, used, max) && Appended(s, r, used, es) && used + |es| <= max
    ensures MapOk(r, used + |es|, max)
  {
    assert forall j :: 0 <= j < BLOCK ==> r[j] == s[j];
    SameBlock0(s, r);
  }

  /** Adding entries keeps block 0, the start and size of the entries there were, and what follows the map. */
  lemma AppendedKeeps(s: seq<uint8>, r: seq<uint8>, used: nat, max: nat, es: seq<Entry>)
    requires MapOk(s, used, max) && Appended(s, r, used, es) && used + |es| <= max
    ensures forall k :: 1 <= k <= used ==> Field(r, k, PY_PART_START) == Field(s, k, PY_PART_START)
                                           && Field(r, k, PART_BLK_CNT) == Field(s, k, PART_BLK_CNT)
    ensures forall j :: 0 <= j < BLOCK || (max + 1) * BLOCK <= j < |s| ==> r[j] == s[j]
  {
    hide Get32;
    forall k | 1 <= k <= used
      ensures Field(r, k, PY_PART_START) == Field(s, k, PY_PART_START)
      ensures Field(r, k, PART_BLK_CNT) == Field(s, k, PART_BLK_CNT)
    {
      forall j | k * BLOCK + 8 <= j < k * BLOCK + 16
        ensures r[j] == s[j]
      {
        Place(k, j - k * BLOCK);
      }
      SameField(s, r, k * BLOCK + PY_PART_START);
      SameField(s, r, k * BLOCK + PART_BLK_CNT);
    }
  }

  /** The added entries read back. */
  lemma AppendedEntry(s: seq<uint8>, r: seq<uint8>, used: nat, es: seq<Entry>, m: nat)
    requires Appended(s, r, used, es) && m < |es|
    ensures var k := used + 1 + m;
            && Field(r, k, PY_PART_START) == Start(es[m]) && Field(r, k, PART_BLK_CNT) == Blocks(es[m])
            && (forall i :: 1 <= i <= k ==> Field(r, i, 4) == used + |es|)
            && forall o :: 0 <= o < BLOCK && !(4 <= o < 8) ==> r[k * BLOCK + o] == es[m][o]
  {
    hide Get32;
    var k := used + 1 + m;
    forall o | 0 <= o < BLOCK && !(4 <= o < 8)
      ensures r[k * BLOCK + o] == es[m][o]
    {
      Place(k, o);
    }
    var slice := r[k * BLOCK..(k + 1) * BLOCK];
    SameField(slice, es[m], PY_PART_START);
    SameField(slice, es[m], PART_BLK_CNT);
    FieldOfSlice(r, k, PY_PART_START);
    FieldOfSlice(r, k, PART_BLK_CNT);
  }

  lemma FieldOfSlice(r: seq<uint8>, k: nat, o: nat)
    requires o + 4 <= BLOCK && (k + 1) * BLOCK <= |r|
    ensures Field(r, k, o) == Get32(r[k * BLOCK..(k + 1) * BLOCK], o)
  {
  }
}
