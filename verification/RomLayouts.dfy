/**
 The four layouts of a boot ROM, told by its bytes, and for each what `CheckRom` compares and what it
 stores, with the positions as numbers.
 */
module RomLayouts {
  import opened Words
  import opened BigEndian
  import opened Adler
  import opened RomChecksums
  import opened RomFixing

  /** The bytes at 0x3F00 are one of the two signatures of a configuration block. */
  predicate Signed(s: Rom) {
    (s[0x3F00] == 0xC9 && s[0x3F01] == 0x9C) || (s[0x3F00] == 0xC0 && s[0x3F01] == 0x3C)
  }

  /** `r[o..o + 4]` holds the Adler-32 checksum of `s[from..to]`. */
  predicate Sealed(r: Rom, o: nat, s: Rom, from: nat, to: nat)
    requires o + 4 <= ROM_BUFFER && from <= to <= ROM_BUFFER
  {
    Get32(r, o) == Adler32Of(s[from..to])
  }

  lemma SignatureIs(s: Rom)
    ensures HasConfig(s) <==> Signed(s)
  {
  }

  lemma SealedIs(r: Rom, s: Rom, f: Field)
    requires InRom(f)
    ensures Sealed(r, f.pos, s, f.from, f.to) <==> Stored(r, f) == Calculated(s, f)
  {
    hide Adler32Of;
  }

  /** Outside the fields of the list nothing changes, and they all end up right. */
  lemma FixedFields(s: Rom, size: nat, k: nat)
    requires IsNewWorld(s) && 4 <= size <= ROM_BUFFER && k < ROM_BUFFER
    ensures forall f :: f in Fields(s) ==> InRom(f) && Stored(Fixed(s, size), f) == Calculated(s, f)
    ensures (forall f :: f in Fields(s) ==> !(f.pos <= k < f.pos + 4)) ==> Fixed(s, size)[k] == s[k]
  {
    hide Fields, FixFields, Get32, Adler32Of, IsNewWorld, Calculated, Stored;
    FieldsSeparate(s);
    forall f | f in Fields(s)
      ensures InRom(f) && Stored(Fixed(s, size), f) == Calculated(s, f)
    {
      FixStores(s, s, Fields(s), f);
    }
    if forall f :: f in Fields(s) ==> !In4(k, f) {
      FixKeeps(s, s, Fields(s), k);
    }
  }

  /** With the signature a ROM has four checksums, whatever its dates. */
  lemma ConfigRom(s: Rom, size: nat)
    requires Signed(s) && 4 <= size <= ROM_BUFFER
    ensures IsNewWorld(s)
    ensures Consistent(s, size) <==>
            Sealed(s, 0x3EFC, s, 0, 0x3EFC) && Sealed(s, 0x3F7C, s, 0x3F00, 0x3F7C)
            && Sealed(s, 0x7_FFFC, s, 0x8000, 0x7_FFFC) && Sealed(s, 0xF_FFFC, s, 0x8_0000, 0xF_FFFC)
    ensures var r := Fixed(s, size);
            && Sealed(r, 0x3EFC, s, 0, 0x3EFC) && Sealed(r, 0x3F7C, s, 0x3F00, 0x3F7C)
            && Sealed(r, 0x7_FFFC, s, 0x8000, 0x7_FFFC) && Sealed(r, 0xF_FFFC, s, 0x8_0000, 0xF_FFFC)
            && forall k | 0 <= k < ROM_BUFFER && !(0x3EFC <= k < 0x3F00) && !(0x3F7C <= k < 0x3F80)
                          && !(0x7_FFFC <= k < 0x8_0000) && !(0xF_FFFC <= k < 0x10_0000) :: r[k] == s[k]
  {
    hide Calculated, Stored, Sealed, Fixed, Date;
    SignatureIs(s);
    FixedInOrder(s);
    var fs := [CONFIG_START, CONFIG, RECOVERY, ROM_IMAGE];
    assert Fields(s) == fs;
    hide Fields;
    var r := Fixed(s, size);
    SealedIs(s, s, fs[0]); SealedIs(s, s, fs[1]); SealedIs(s, s, fs[2]); SealedIs(s, s, fs[3]);
    SealedIs(r, s, fs[0]); SealedIs(r, s, fs[1]); SealedIs(r, s, fs[2]); SealedIs(r, s, fs[3]);
    FixedFields(s, size, 0);
    forall k | 0 <= k < ROM_BUFFER && !(0x3EFC <= k < 0x3F00) && !(0x3F7C <= k < 0x3F80)
               && !(0x7_FFFC <= k < 0x8_0000) && !(0xF_FFFC <= k < 0x10_0000)
      ensures r[k] == s[k]
    {
      FixedFields(s, size, k);
    }
  }

  /** The date of a ROM without the signature: a word at 8 in this range decides alone, otherwise the one at 12. */
  predicate Dated(s: Rom, date: uint32) {
    date == if 0x1998_0710 < Get32(s, 8) <= 0x2005_1231 then Get32(s, 8) else Get32(s, 12)
  }

  lemma DateIs(s: Rom, date: uint32)
    requires !Signed(s) && Dated(s, date)
    ensures !HasConfig(s) && Date(s) == date
  {
    SignatureIs(s);
  }

  /** A later date without the signature: three checksums. */
  lemma LateRom(s: Rom, size: nat, date: uint32)
    requires !Signed(s) && Dated(s, date) && 0x1998_0710 < date <= 0x2005_1213 && 4 <= size <= ROM_BUFFER
    ensures IsNewWorld(s)
    ensures Consistent(s, size) <==>
            Sealed(s, 0x3FFC, s, 0, 0x3FFC) && Sealed(s, 0x7_FFFC, s, 0x8000, 0x7_FFFC) && Sealed(s, 0xF_FFFC, s, 0x8_0000, 0xF_FFFC)
    ensures var r := Fixed(s, size);
            && Sealed(r, 0x3FFC, s, 0, 0x3FFC) && Sealed(r, 0x7_FFFC, s, 0x8000, 0x7_FFFC) && Sealed(r, 0xF_FFFC, s, 0x8_0000, 0xF_FFFC)
            && forall k | 0 <= k < ROM_BUFFER && !(0x3FFC <= k < 0x4000)
                          && !(0x7_FFFC <= k < 0x8_0000) && !(0xF_FFFC <= k < 0x10_0000) :: r[k] == s[k]
  {
    hide Calculated, Stored, Sealed, Fixed, Date, HasConfig;
    DateIs(s, date);
    FixedInOrder(s);
    var fs := [START, RECOVERY, ROM_IMAGE];
    assert Fields(s) == fs;
    hide Fields;
    var r := Fixed(s, size);
    SealedIs(s, s, fs[0]); SealedIs(s, s, fs[1]); SealedIs(s, s, fs[2]);
    SealedIs(r, s, fs[0]); SealedIs(r, s, fs[1]); SealedIs(r, s, fs[2]);
    FixedFields(s, size, 0);
    forall k | 0 <= k < ROM_BUFFER && !(0x3FFC <= k < 0x4000) && !(0x7_FFFC <= k < 0x8_0000) && !(0xF_FFFC <= k < 0x10_0000)
      ensures r[k] == s[k]
    {
      FixedFields(s, size, k);
    }
  }

  /** An early date: two checksums. */
  lemma EarlyRom(s: Rom, size: nat, date: uint32)
    requires !Signed(s) && Dated(s, date) && 0x1998_0101 <= date <= 0x1998_0710 && 4 <= size <= ROM_BUFFER
    ensures IsNewWorld(s)
    ensures Consistent(s, size) <==> Sealed(s, 0x3FFC, s, 0, 0x3FFC) && Sealed(s, 0xF_FFFC, s, 0x4000, 0xF_FFFC)
    ensures var r := Fixed(s, size);
            && Sealed(r, 0x3FFC, s, 0, 0x3FFC) && Sealed(r, 0xF_FFFC, s, 0x4000, 0xF_FFFC)
            && forall k :: 0 <= k < ROM_BUFFER && !(0x3FFC <= k < 0x4000) && !(0xF_FFFC <= k < 0x10_0000) ==> r[k] == s[k]
  {
    hide Calculated, Stored, Sealed, Fixed, Date, HasConfig;
    DateIs(s, date);
    FixedInOrder(s);
    var fs := [START, EARLY_IMAGE];
    assert Fields(s) == fs;
    hide Fields;
    var r := Fixed(s, size);
    SealedIs(s, s, fs[0]); SealedIs(s, s, fs[1]);
    SealedIs(r, s, fs[0]); SealedIs(r, s, fs[1]);
    FixedFields(s, size, 0);
    forall k | 0 <= k < ROM_BUFFER && !(0x3FFC <= k < 0x4000) && !(0xF_FFFC <= k < 0x10_0000)
      ensures r[k] == s[k]
    {
      FixedFields(s, size, k);
    }
  }

  /** Any other date: an OldWorld ROM, with the sum of its 16-bit words and, in 4 MB, that of its 64-bit words. */
  lemma OldWorldRom(s: Rom, size: nat, date: uint32, offset: uint32)
    requires !Signed(s) && Dated(s, date) && !(0x1998_0101 <= date <= 0x2005_1213) && 4 <= size <= ROM_BUFFER
    requires offset == Get32(s, 0x30_0080)
    ensures !IsNewWorld(s)
    ensures var end := if size < 0x30_0000 then size else 0x30_0000;
            Consistent(s, size) <==>
            && Get32(s, 0) == WordSum(s[4..end]) % 0x1_0000_0000
            && (size == 0x40_0000 && offset <= 0xF_FF8C ==>
                  Get64(s, 0x30_0020 + offset) == QwordSum(s, 0, 0x40_0000, 0x30_0000 + offset) % 0x1_0000_0000_0000_0000)
  {
    hide Date, HasConfig, WordSum, QwordSum, Get64;
    DateIs(s, date);
  }

  /** What fixing stores in it. */
  lemma OldWorldFixes(s: Rom, size: nat, date: uint32, offset: uint32)
    requires !Signed(s) && Dated(s, date) && !(0x1998_0101 <= date <= 0x2005_1213) && 4 <= size <= ROM_BUFFER
    requires offset == Get32(s, 0x30_0080)
    ensures var end := if size < 0x30_0000 then size else 0x30_0000;
            var m, r := Put32(s, 0, WordSum(s[4..end]) % 0x1_0000_0000), Fixed(s, size);
            if size == 0x40_0000 && offset <= 0xF_FF8C
            then r == Put64(m, 0x30_0020 + offset, QwordSum(m, 0, 0x40_0000, 0x30_0000 + offset) % 0x1_0000_0000_0000_0000)
            else r == m
  {
    hide Date, HasConfig, WordSum, QwordSum, Get64, Put64, Get32, Put32;
    DateIs(s, date);
    var m: Rom := Put32(s, 0, Sum32(s, size));
    StoredAgain(s, 0);
    assert FixSum32(s, size) == m;
    SameField(s, m, 0x30_0080);
    if HasSum64(m, size) {
      StoredAgain64(m, SumField(m));
    }
  }

  /** Storing what is there changes nothing. */
  lemma StoredAgain(s: seq<uint8>, o: nat)
    requires o + 4 <= |s|
    ensures Put32(s, o, Get32(s, o)) == s
  {
    var hi, lo := s[o] as int * 0x100 + s[o + 1] as int, s[o + 2] as int * 0x100 + s[o + 3] as int;
    Parts(hi, lo, 0x1_0000);
    Parts(s[o], s[o + 1], 0x100);
    Parts(s[o + 2], s[o + 3], 0x100);
    assert Get32(s, o) == hi * 0x1_0000 + lo;
    hide Get32;
    var r := Put32(s, o, Get32(s, o));
    assert r[o] == s[o] && r[o + 1] == s[o + 1] && r[o + 2] == s[o + 2] && r[o + 3] == s[o + 3];
  }

  lemma Parts(hi: nat, lo: nat, base: nat)
    requires lo < base && (base == 0x100 || base == 0x1_0000)
    ensures (hi * base + lo) / base == hi && (hi * base + lo) % base == lo
  {
  }

  lemma StoredAgain64(s: seq<uint8>, o: nat)
    requires o + 8 <= |s|
    ensures Put64(s, o, Get64(s, o)) == s
  {
    hide Get32, Put32;
    StoredAgain(s, o);
    StoredAgain(s, o + 4);
  }
}
