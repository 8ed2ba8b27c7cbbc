/** Fixing the checksums of a ROM once leaves them all right. */
module RomFixing {
  import opened Words
  import opened BigEndian
  import opened Adler
  import opened RomChecksums

  // ----- NewWorld: no stored field lies in a range that is summed

  ghost predicate In4(k: int, f: Field) { f.pos <= k < f.pos + 4 }

  /** No field of the list overlaps another or a range. */
  ghost predicate Separate(fs: seq<Field>) {
    && (forall f :: f in fs ==> InRom(f))
    && (forall f, g :: f in fs && g in fs ==> f.pos + 4 <= g.from || g.to <= f.pos)
    && (forall i, j :: 0 <= i < j < |fs| ==> fs[i].pos + 4 <= fs[j].pos || fs[j].pos + 4 <= fs[i].pos)
  }

  lemma PairSeparate(f: Field, g: Field)
    requires InRom(f) && InRom(g) && f.to <= f.pos && g.to <= g.pos
    requires f.pos + 4 <= g.from || (g.to <= f.pos && (f.pos + 4 <= g.pos || g.pos + 4 <= f.pos))
    requires g.pos + 4 <= f.from || f.to <= g.pos
    ensures Separate([f, g])
  {
  }

  lemma OneMoreSeparate(f: Field, fs: seq<Field>)
    requires Separate(fs) && InRom(f) && f.to <= f.pos
    requires forall g :: g in fs ==> f.to <= g.pos && f.pos + 4 <= g.from && f.pos + 4 <= g.pos
    ensures Separate([f] + fs)
  {
  }

  lemma ListsSeparate()
    ensures Separate([CONFIG_START, CONFIG, RECOVERY, ROM_IMAGE])
    ensures Separate([START, RECOVERY, ROM_IMAGE]) && Separate([START, EARLY_IMAGE])
  {
    hide Separate;
    PairSeparate(RECOVERY, ROM_IMAGE);
    PairSeparate(START, EARLY_IMAGE);
    OneMoreSeparate(START, [RECOVERY, ROM_IMAGE]);
    OneMoreSeparate(CONFIG, [RECOVERY, ROM_IMAGE]);
    OneMoreSeparate(CONFIG_START, [CONFIG, RECOVERY, ROM_IMAGE]);
    assert [CONFIG] + [RECOVERY, ROM_IMAGE] == [CONFIG, RECOVERY, ROM_IMAGE];
    assert [START] + [RECOVERY, ROM_IMAGE] == [START, RECOVERY, ROM_IMAGE];
    assert [CONFIG_START] + [CONFIG, RECOVERY, ROM_IMAGE] == [CONFIG_START, CONFIG, RECOVERY, ROM_IMAGE];
  }

  lemma FieldsSeparate(s: Rom)
    ensures Separate(Fields(s))
    ensures forall f :: f in Fields(s) ==> f.pos >= 0x3F7C || f.pos == 0x3EFC
  {
    hide HasConfig, Date, Separate;
    ListsSeparate();
    assert [CONFIG_START, CONFIG] + [RECOVERY, ROM_IMAGE] == [CONFIG_START, CONFIG, RECOVERY, ROM_IMAGE];
    assert [START] + [RECOVERY, ROM_IMAGE] == [START, RECOVERY, ROM_IMAGE];
    assert [START] + [EARLY_IMAGE] == [START, EARLY_IMAGE];
  }

  /** Fixing changes bytes of the fields only. */
  lemma {:induction false} FixKeeps(r: Rom, s: Rom, fs: seq<Field>, k: nat)
    requires (forall f :: f in fs ==> InRom(f)) && k < ROM_BUFFER && forall f :: f in fs ==> !In4(k, f)
    ensures FixFields(r, s, fs)[k] == r[k]
    decreases |fs|
  {
    hide Calculated, Stored;
    if fs != [] {
      assert fs[0] in fs && !In4(k, fs[0]);
      PutFrame(r, fs[0].pos, Calculated(s, fs[0]));
      FixKeeps(FixField(r, s, fs[0]), s, fs[1..], k);
    }
  }

  /** Every field of the list ends up with what was calculated. */
  lemma {:induction false} FixStores(r: Rom, s: Rom, fs: seq<Field>, f: Field)
    requires Separate(fs) && f in fs && forall g :: g in fs ==> Stored(r, g) == Stored(s, g)
    ensures Stored(FixFields(r, s, fs), f) == Calculated(s, f)
    decreases |fs|
  {
    hide Calculated, Get32, Put32;
    var g, rest := fs[0], fs[1..];
    var next := FixField(r, s, g);
    PutGet(r, g.pos, Calculated(s, g));
    forall h | h in rest
      ensures Stored(next, h) == Stored(s, h)
    {
      var j :| 1 <= j < |fs| && fs[j] == h;
      PutKeeps(r, g.pos, Calculated(s, g), h.pos);
    }
    if f in rest {
      FixStores(next, s, rest, f);
    } else {
      forall k | f.pos <= k < f.pos + 4
        ensures FixFields(next, s, rest)[k] == next[k]
      {
        forall h | h in rest
          ensures !In4(k, h)
        {
          var j :| 1 <= j < |fs| && fs[j] == h;
        }
        FixKeeps(next, s, rest, k);
      }
      SameField(next, FixFields(next, s, rest), f.pos);
    }
  }

  /** The bytes that decide the layout are in no field. */
  lemma LayoutKept(s: Rom)
    requires IsNewWorld(s)
    ensures var r := FixFields(s, s, Fields(s));
            IsNewWorld(r) && Fields(r) == Fields(s)
  {
    hide FixFields, Fields, Get16, Get32;
    FieldsSeparate(s);
    var r := FixFields(s, s, Fields(s));
    forall k | 8 <= k < 16 || 0x3F00 <= k < 0x3F02
      ensures r[k] == s[k]
    {
      FixKeeps(s, s, Fields(s), k);
    }
    SameField(s, r, 8);
    SameField(s, r, 12);
    SameField16(s, r, 0x3F00);
    SameLayout(s, r);
  }

  lemma SameLayout(s: Rom, r: Rom)
    requires Get32(r, 8) == Get32(s, 8) && Get32(r, 12) == Get32(s, 12) && Get16(r, 0x3F00) == Get16(s, 0x3F00)
    ensures IsNewWorld(r) == IsNewWorld(s) && Fields(r) == Fields(s)
  {
  }

  /** After fixing, every NewWorld checksum is the stored one. */
  lemma NewWorldFixed(s: Rom, size: nat)
    requires IsNewWorld(s) && 4 <= size <= ROM_BUFFER
    ensures Consistent(Fixed(s, size), size)
  {
    hide Fields, FixFields, Get32, Adler32Of, IsNewWorld;
    FieldsSeparate(s);
    LayoutKept(s);
    var r := FixFields(s, s, Fields(s));
    forall f | f in Fields(s)
      ensures Stored(r, f) == Calculated(r, f)
    {
      FixStores(s, s, Fields(s), f);
      forall k | f.from <= k < f.to
        ensures r[k] == s[k]
      {
        FixKeeps(s, s, Fields(s), k);
      }
      assert r[f.from..f.to] == s[f.from..f.to];
    }
  }

  // ----- OldWorld

  /** Storing the 64-bit checksum can move the ConfigInfo offset to another valid place. */
  predicate MovesOffset(info: uint32) { 0x5A <= info <= 0x63 }

  /** The 64-bit sum does not see the bytes of its field. */
  lemma {:induction false} SameQwords(s: Rom, r: Rom, i: nat, info: nat)
    requires i % 8 == 0 && info + 40 <= ROM_BUFFER
    requires forall k :: 0 <= k < ROM_BUFFER && !(info + 32 <= k < info + 40) ==> r[k] == s[k]
    ensures QwordSum(r, i, ROM_BUFFER, info) == QwordSum(s, i, ROM_BUFFER, info)
    decreases ROM_BUFFER - i
  {
    hide Get32;
    if i < ROM_BUFFER {
      SameQwords(s, r, i + 8, info);
      if !Skipped(i, info) {
        SameField(s, r, i);
        SameField(s, r, i + 4);
      }
    }
  }

  lemma Sum32Fixed(s: Rom, size: nat)
    requires 4 <= size <= ROM_BUFFER
    ensures var r := FixSum32(s, size);
            && Get32(r, 0) == Sum32(r, size)
            && forall k :: 4 <= k < ROM_BUFFER ==> r[k] == s[k]
  {
  }

  lemma Put64Frame(s: Rom, o: nat, v: uint64)
    requires o + 8 <= ROM_BUFFER
    ensures |Put64(s, o, v)| == |s| && forall k :: 0 <= k < |s| && !(o <= k < o + 8) ==> Put64(s, o, v)[k] == s[k]
  {
  }

  /** At 0x59 only the top byte of the offset is overwritten: either it stays 0 or the offset is out of range. */
  lemma TopByteHit(s: Rom, r: Rom)
    requires InfoOffset(s) == 0x59 && forall k :: 0x30_0081 <= k < 0x30_0084 ==> r[k] == s[k]
    ensures InfoOffset(r) == 0x59 || InfoOffset(r) >= 0x100_0000
  {
  }

  lemma Sum64Fixed(s: Rom, size: nat)
    requires 4 <= size <= ROM_BUFFER && !MovesOffset(InfoOffset(s))
    ensures var r := FixSum64(s, size);
            && (HasSum64(r, size) ==> Get64(r, SumField(r)) == Sum64(r))
            && forall k :: 0 <= k < 0x30_0020 ==> r[k] == s[k]
  {
    hide Get32, Get64, Put64, QwordSum;
    var r := FixSum64(s, size);
    if HasSum64(s, size) && Get64(s, SumField(s)) != Sum64(s) {
      var info := 0x30_0000 + InfoOffset(s);
      PutGet64(s, SumField(s), Sum64(s));
      Put64Frame(s, SumField(s), Sum64(s));
      SameQwords(s, r, 0, info);
      if InfoOffset(s) == 0x59 {
        TopByteHit(s, r);
      } else {
        SameField(s, r, 0x30_0080);
      }
    }
  }

  /** After fixing, both OldWorld checksums are the stored ones, if the offset word is not overwritten. */
  lemma OldWorldFixed(s: Rom, size: nat)
    requires !IsNewWorld(s) && 4 <= size <= ROM_BUFFER && !MovesOffset(InfoOffset(s))
    ensures Consistent(Fixed(s, size), size)
  {
    hide Get16, Get32, Get64, FixSum32, FixSum64, WordSum, QwordSum;
    var m := FixSum32(s, size);
    var r := FixSum64(m, size);
    Sum32Fixed(s, size);
    SameField(s, m, 0x30_0080);
    Sum64Fixed(m, size);
    SameField(s, r, 8);
    SameField(s, r, 12);
    SameField16(s, r, 0x3F00);
    SameLayout(s, r);
    SameField(m, r, 0);
    assert r[4..SumEnd(size)] == m[4..SumEnd(size)];
  }

  /** One fix is enough: the second finds every checksum right and changes nothing. */
  lemma FixingIsIdempotent(s: Rom, size: nat)
    requires 4 <= size <= ROM_BUFFER && (IsNewWorld(s) || !(0x5A <= Get32(s, 0x30_0080) <= 0x63))
    ensures Consistent(Fixed(s, size), size)
    ensures Fixed(Fixed(s, size), size) == Fixed(s, size)
  {
    hide IsNewWorld, Fixed, Consistent;
    if IsNewWorld(s) {
      NewWorldFixed(s, size);
    } else {
      OldWorldFixed(s, size);
    }
    NothingToFix(Fixed(s, size), size);
  }

  lemma {:induction false} NoFieldToFix(s: Rom, fs: seq<Field>)
    requires forall f :: f in fs ==> InRom(f) && Stored(s, f) == Calculated(s, f)
    ensures FixFields(s, s, fs) == s
    decreases |fs|
  {
    hide Stored, Calculated;
    if fs != [] {
      NoFieldToFix(s, fs[1..]);
    }
  }

  lemma NothingToFix(s: Rom, size: nat)
    requires 4 <= size <= ROM_BUFFER && Consistent(s, size)
    ensures Fixed(s, size) == s
  {
    hide Stored, Calculated, Get16, Get32, Get64, Date;
    if IsNewWorld(s) {
      FieldsSeparate(s);
      NoFieldToFix(s, Fields(s));
    }
  }

  // ----- The offsets for which one fix is not enough

  /** All zero but the low byte of the offset and one 64-bit word of value 1. */
  function Witness(info: uint8): Rom {
    seq(ROM_BUFFER, i requires 0 <= i < ROM_BUFFER => if i == 0x30_0083 then info else if i == 0x31_0007 then 1 else 0)
  }

  /** What storing the sum 1 makes of it. */
  function Stamped(info: uint8): Rom {
    var last := 0x30_0027 + info as int;
    seq(ROM_BUFFER, i requires 0 <= i < ROM_BUFFER =>
      if i == last || i == 0x31_0007 then 1 else if i == 0x30_0083 && !(last - 7 <= i <= last) then info else 0)
  }

  lemma {:induction false} ZeroWords(bytes: seq<uint8>)
    requires forall k :: 0 <= k < |bytes| ==> bytes[k] == 0
    ensures WordSum(bytes) == 0
    decreases |bytes|
  {
    if |bytes| >= 2 {
      ZeroWords(bytes[2..]);
    }
  }

  /** Zero words add nothing. */
  lemma {:induction false} ZeroQwords(s: Rom, i: nat, j: nat, info: nat)
    requires i <= j <= ROM_BUFFER && i % 8 == 0 && j % 8 == 0 && forall k :: i <= k < j ==> s[k] == 0
    ensures QwordSum(s, i, ROM_BUFFER, info) == QwordSum(s, j, ROM_BUFFER, info)
    decreases j - i
  {
    if i < j {
      ZeroQwords(s, i + 8, j, info);
    }
  }

  lemma QwordFirst(s: Rom, i: nat, info: nat)
    requires i % 8 == 0 && i < ROM_BUFFER
    ensures QwordSum(s, i, ROM_BUFFER, info) == (if Skipped(i, info) then 0 else Get64(s, i)) + QwordSum(s, i + 8, ROM_BUFFER, info)
    ensures QwordSum(s, ROM_BUFFER, ROM_BUFFER, info) == 0
  {
  }

  /** The 64-bit sum of a ROM that is zero outside two places. */
  lemma FewQwords(s: Rom, info: nat)
    requires forall k :: 0 <= k < ROM_BUFFER && !(0x30_0080 <= k < 0x30_0090 || 0x31_0000 <= k < 0x31_0008) ==> s[k] == 0
    ensures QwordSum(s, 0, ROM_BUFFER, info) ==
            (if Skipped(0x30_0080, info) then 0 else Get64(s, 0x30_0080))
            + (if Skipped(0x30_0088, info) then 0 else Get64(s, 0x30_0088))
            + (if Skipped(0x31_0000, info) then 0 else Get64(s, 0x31_0000))
  {
    hide Get64, QwordSum, Skipped;
    ZeroQwords(s, 0, 0x30_0080, info);
    QwordFirst(s, 0x30_0080, info);
    QwordFirst(s, 0x30_0088, info);
    ZeroQwords(s, 0x30_0090, 0x31_0000, info);
    QwordFirst(s, 0x31_0000, info);
    ZeroQwords(s, 0x31_0008, ROM_BUFFER, info);
  }

  lemma ZeroIsOldWorld(s: Rom)
    requires forall k :: 0 <= k < 0x30_0000 ==> s[k] == 0
    ensures !IsNewWorld(s) && Sum32(s, ROM_BUFFER) == 0 && Get32(s, 0) == 0
  {
    ZeroWords(s[4..0x30_0000]);
  }

  lemma ZeroField(s: Rom, o: nat)
    requires o + 8 <= ROM_BUFFER && forall k :: o <= k < o + 8 ==> s[k] == 0
    ensures Get64(s, o) == 0
  {
  }

  /** A field of zeros but for its last byte. */
  lemma LowByteField(s: Rom, o: nat)
    requires o + 8 <= ROM_BUFFER && forall k :: o <= k < o + 7 ==> s[k] == 0
    ensures Get64(s, o) == s[o + 7]
  {
  }

  /** A field that begins with a zero is far from 2^64. */
  lemma SmallField(s: Rom, o: nat)
    requires o + 8 <= ROM_BUFFER && s[o] <= 1
    ensures Get64(s, o) < 0x4000_0000_0000_0000
  {
  }

  lemma WitnessStored(info: uint8)
    requires MovesOffset(info)
    ensures Get64(Witness(info), 0x30_0020 + info) != 1
  {
  }

  lemma WitnessSum(info: uint8)
    requires MovesOffset(info)
    ensures var s := Witness(info);
            InfoOffset(s) == info && HasSum64(s, ROM_BUFFER) && Sum64(s) == 1 && Get64(s, SumField(s)) != 1
  {
    hide Get64, QwordSum;
    var s := Witness(info);
    FewQwords(s, 0x30_0000 + info);
    ZeroField(s, 0x30_0088);
    LowByteField(s, 0x31_0000);
    WitnessStored(info);
  }

  lemma PutOne(s: Rom, o: nat)
    requires o + 8 <= ROM_BUFFER
    ensures var r := Put64(s, o, 1);
            r[o + 7] == 1 && (forall k :: o <= k < o + 7 ==> r[k] == 0) && forall k :: 0 <= k < ROM_BUFFER && !(o <= k < o + 8) ==> r[k] == s[k]
  {
  }

  lemma WitnessFixed(info: uint8)
    requires MovesOffset(info)
    ensures Fixed(Witness(info), ROM_BUFFER) == Stamped(info)
  {
    hide Get64, Put64, Sum64, Sum32, IsNewWorld;
    var s := Witness(info);
    ZeroIsOldWorld(s);
    WitnessSum(info);
    PutOne(s, SumField(s));
    assert Put64(s, SumField(s), 1) == Stamped(info);
  }

  /** Where the second look finds the ConfigInfo offset. */
  function MovedOffset(info: uint8): nat {
    if info == 0x5A then 0x1_005A else if info == 0x5B then 0x15B else if info == 0x5C then 1 else 0
  }

  lemma StampedOffset(info: uint8)
    requires MovesOffset(info)
    ensures InfoOffset(Stamped(info)) == MovedOffset(info)
  {
  }

  /** The second look reads another field, which holds 0, and the sum is not 0. */
  lemma StampedWrong(info: uint8)
    requires MovesOffset(info)
    ensures !Consistent(Stamped(info), ROM_BUFFER)
  {
    hide Get64, QwordSum, IsNewWorld, Get32;
    var r := Stamped(info);
    ZeroIsOldWorld(r);
    StampedOffset(info);
    FewQwords(r, 0x30_0000 + InfoOffset(r));
    SmallField(r, 0x30_0080);
    SmallField(r, 0x30_0088);
    LowByteField(r, 0x31_0000);
    ZeroField(r, 0x30_0020 + MovedOffset(info));
  }

  /** One fix is enough for every OldWorld ROM with this offset, exactly when storing the sum does not move the offset. */
  lemma OneFixIffOffsetStays(info: uint32)
    ensures (forall s: Rom :: !IsNewWorld(s) && Get32(s, 0x30_0080) == info ==> Consistent(Fixed(s, ROM_BUFFER), ROM_BUFFER))
            <==> !(0x5A <= info <= 0x63)
  {
    hide IsNewWorld, Get32, Consistent, Fixed, Stamped, Witness;
    if MovesOffset(info) {
      WitnessSum(info);
      WitnessFixed(info);
      WitnessOld(info);
      StampedWrong(info);
      assert !Consistent(Fixed(Witness(info), ROM_BUFFER), ROM_BUFFER);
    } else {
      forall s: Rom | !IsNewWorld(s) && Get32(s, 0x30_0080) == info
        ensures Consistent(Fixed(s, ROM_BUFFER), ROM_BUFFER)
      {
        OldWorldFixed(s, ROM_BUFFER);
      }
    }
  }

  lemma WitnessOld(info: uint8)
    ensures !IsNewWorld(Witness(info))
  {
  }
}
