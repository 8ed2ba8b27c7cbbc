/**
 The checksums of a boot ROM, and how MachineFactory::machine_name_from_rom in
 machines/machinefactory.cpp checks and fixes them. Which checksums a ROM has depends on its own
 bytes: the dates at 8 and 12, the signature at 0x3F00 and the ConfigInfo offset at 0x300080.
 */
module RomChecksums {
  import opened Words
  import opened BigEndian
  import opened Adler

  /** The size of the buffer a ROM is read into. */
  const ROM_BUFFER := 0x40_0000

  type Rom = s: seq<uint8> | |s| == ROM_BUFFER witness seq(ROM_BUFFER, _ => 0)

  // ----- Sums of words

  /** The sum of the big-endian 16-bit words. */
  function WordSum(bytes: seq<uint8>): nat {
    if |bytes| < 2 then 0 else Get16(bytes, 0) + WordSum(bytes[2..])
  }

  /** A byte counts by its place in its word: the first one 256 times. */
  lemma {:induction false} WordSumOneByte(bytes: seq<uint8>, k: nat, v: uint8)
    requires k < |bytes| && |bytes| % 2 == 0
    ensures WordSum(bytes[k := v]) == WordSum(bytes) + (v - bytes[k]) * if k % 2 == 0 then 0x100 else 1
    decreases |bytes|
  {
    var changed := bytes[k := v];
    if k >= 2 {
      WordSumOneByte(bytes[2..], k - 2, v);
      assert changed[2..] == bytes[2..][k - 2 := v];
    } else {
      assert changed[2..] == bytes[2..];
    }
  }

  method OldWorldChecksum(rom: array<uint8>, start: nat, length: nat) returns (ck: uint32)
    requires start + length <= rom.Length && length % 2 == 0
    ensures ck == Wrap32(WordSum(rom[start..start + length]))
  {
    hide Wrap32;
    ck := 0;
    var p, len := start, length;
    while len > 0
      invariant 0 <= len && p + len == start + length && len % 2 == 0 && start <= p
      invariant Wrap32(ck + WordSum(rom[p..start + length])) == Wrap32(WordSum(rom[start..start + length]))
    {
      WordFirst(rom[p..start + length]);
      SumStep(ck, Get16(rom[..], p), WordSum(rom[p + 2..start + length]));
      assert rom[p..start + length][2..] == rom[p + 2..start + length];
      ck := Wrap32(ck + Get16(rom[..], p));
      p := p + 2;
      len := len - 2;
    }
    assert rom[p..start + length] == [];
  }

  lemma SumStep(ck: int, x: int, rest: int)
    ensures Wrap32(Wrap32(ck + x) + rest) == Wrap32(ck + (x + rest))
  {
  }

  lemma SumStep64(ck: int, x: int, rest: int)
    ensures Wrap64(Wrap64(ck + x) + rest) == Wrap64(ck + (x + rest))
  {
  }

  lemma WordFirst(bytes: seq<uint8>)
    requires |bytes| >= 2
    ensures WordSum(bytes) == Get16(bytes, 0) + WordSum(bytes[2..])
  {
  }

  predicate Skipped(i: nat, info: nat) { info <= i < info + 40 }

  /** The sum of the 64-bit words from `i` to `len`, without those that begin in the 40 bytes at `info`. */
  function QwordSum(s: seq<uint8>, i: nat, len: nat, info: nat): nat
    requires len <= |s| && i % 8 == 0 && len % 8 == 0
    decreases len - i
  {
    if i >= len then 0
    else (if Skipped(i, info) then 0 else Get64(s, i)) + QwordSum(s, i + 8, len, info)
  }

  /** What a byte of a 64-bit word counts: the first one 2^56 times. */
  function PlaceValue(k: nat): nat {
    match k % 8
    case 0 => 0x100_0000_0000_0000
    case 1 => 0x1_0000_0000_0000
    case 2 => 0x100_0000_0000
    case 3 => 0x1_0000_0000
    case 4 => 0x100_0000
    case 5 => 0x1_0000
    case 6 => 0x100
    case 7 => 1
  }

  /** A byte counts by its place in its 64-bit word, unless the word begins in the 40 bytes. */
  lemma {:induction false} QwordSumOneByte(s: seq<uint8>, i: nat, len: nat, info: nat, k: nat, v: uint8)
    requires i <= len <= |s| && i % 8 == 0 && len % 8 == 0 && k < |s|
    ensures QwordSum(s[k := v], i, len, info) == QwordSum(s, i, len, info)
            + if i <= k < len && !(info <= k - k % 8 < info + 40) then (v - s[k]) * PlaceValue(k) else 0
    decreases len - i
  {
    hide Get64, PlaceValue;
    if i < len {
      QwordSumOneByte(s, i + 8, len, info, k, v);
      if i <= k < i + 8 {
        QwordOneByte(s, i, k, v);
      } else {
        OtherQword(s, i, k, v);
      }
    }
  }

  lemma QwordOneByte(s: seq<uint8>, i: nat, k: nat, v: uint8)
    requires i % 8 == 0 && i + 8 <= |s| && i <= k < i + 8
    ensures k - k % 8 == i && Get64(s[k := v], i) == Get64(s, i) + (v - s[k]) * PlaceValue(k)
  {
    assert k % 8 == k - i;
  }

  lemma OtherQword(s: seq<uint8>, i: nat, k: nat, v: uint8)
    requires i % 8 == 0 && i + 8 <= |s| && k < |s| && !(i <= k < i + 8)
    ensures k - k % 8 != i && Get64(s[k := v], i) == Get64(s, i)
  {
  }

  method OldWorldChecksum64(rom: array<uint8>, len: nat, info: nat) returns (ck: uint64)
    requires len <= rom.Length && len % 8 == 0
    ensures ck == Wrap64(QwordSum(rom[..], 0, len, info))
  {
    hide Get64, Wrap64;
    ck := 0;
    var i := 0;
    while i < len
      invariant i <= len && i % 8 == 0
      invariant Wrap64(ck + QwordSum(rom[..], i, len, info)) == Wrap64(QwordSum(rom[..], 0, len, info))
    {
      if i < info || i >= info + 40 {
        SumStep64(ck, Get64(rom[..], i), QwordSum(rom[..], i + 8, len, info));
        ck := Wrap64(ck + Get64(rom[..], i));
      }
      i := i + 8;
    }
  }

  // ----- The layout

  predicate HasConfig(s: Rom) { Get16(s, 0x3F00) == 0xC99C || Get16(s, 0x3F00) == 0xC03C }

  function Date(s: Rom): uint32 {
    var date := Get32(s, 8);
    if !HasConfig(s) && !(date > 0x1998_0710 && date <= 0x2005_1231) then Get32(s, 12) else date
  }

  predicate IsNewWorld(s: Rom) { HasConfig(s) || 0x1998_0101 <= Date(s) <= 0x2005_1213 }
  predicate IsLate(s: Rom) { HasConfig(s) || Date(s) > 0x1998_0710 }

  /** An Adler-32 field: where it is stored and which bytes it covers. */
  datatype Field = Field(pos: nat, from: nat, to: nat)

  const CONFIG_START := Field(0x3EFC, 0, 0x3EFC)
  const CONFIG := Field(0x3F7C, 0x3F00, 0x3F7C)
  const START := Field(0x3FFC, 0, 0x3FFC)
  const RECOVERY := Field(0x7FFFC, 0x8000, 0x7FFFC)
  const ROM_IMAGE := Field(0xFFFFC, 0x80000, 0xFFFFC)
  const EARLY_IMAGE := Field(0xFFFFC, 0x4000, 0xFFFFC)

  /** The fields of a NewWorld ROM, in the order in which they are fixed. */
  function Fields(s: Rom): seq<Field> {
    (if HasConfig(s) then [CONFIG_START, CONFIG] else [START])
    + if IsLate(s) then [RECOVERY, ROM_IMAGE] else [EARLY_IMAGE]
  }

  predicate InRom(f: Field) { f.pos + 4 <= ROM_BUFFER && f.from <= f.to <= ROM_BUFFER }

  function Calculated(s: Rom, f: Field): uint32
    requires InRom(f)
  {
    Adler32Of(s[f.from..f.to])
  }

  function Stored(s: Rom, f: Field): uint32
    requires InRom(f)
  {
    Get32(s, f.pos)
  }

  /** The checksums of an OldWorld ROM. */
  function SumEnd(size: nat): nat
    requires size >= 4
  {
    4 + if size - 4 < 0x2F_FFFC then size - 4 else 0x2F_FFFC
  }

  function Sum32(s: Rom, size: nat): uint32
    requires 4 <= size <= ROM_BUFFER
  {
    Wrap32(WordSum(s[4..SumEnd(size)]))
  }

  function InfoOffset(s: Rom): uint32 { Get32(s, 0x30_0080) }

  predicate HasSum64(s: Rom, size: nat) {
    size == ROM_BUFFER && 0x30_0000 + InfoOffset(s) <= size - 0x64 - 16
  }

  function Sum64(s: Rom): uint64 { Wrap64(QwordSum(s, 0, ROM_BUFFER, 0x30_0000 + InfoOffset(s))) }

  function SumField(s: Rom): nat { 0x30_0020 + InfoOffset(s) }

  /** Every stored checksum is the calculated one. */
  ghost predicate Consistent(s: Rom, size: nat)
    requires 4 <= size <= ROM_BUFFER
  {
    if IsNewWorld(s) then
      forall f :: f in Fields(s) ==> Stored(s, f) == Calculated(s, f)
    else
      && Get32(s, 0) == Sum32(s, size)
      && (HasSum64(s, size) ==> Get64(s, SumField(s)) == Sum64(s))
  }

  // ----- Fixing

  /** Stores what was calculated from `s` in a field of which the value was wrong. */
  function FixField(r: Rom, s: Rom, f: Field): Rom
    requires InRom(f)
  {
    if Calculated(s, f) == Stored(s, f) then r else Put32(r, f.pos, Calculated(s, f))
  }

  function FixFields(r: Rom, s: Rom, fs: seq<Field>): Rom
    requires forall f :: f in fs ==> InRom(f)
    decreases |fs|
  {
    if fs == [] then r else FixFields(FixField(r, s, fs[0]), s, fs[1..])
  }

  lemma FixFirst(r: Rom, s: Rom, f: Field, rest: seq<Field>)
    requires InRom(f) && forall g :: g in rest ==> InRom(g)
    ensures FixFields(r, s, [f] + rest) == FixFields(FixField(r, s, f), s, rest)
  {
  }

  lemma FixTwo(r: Rom, s: Rom, f: Field, g: Field)
    requires InRom(f) && InRom(g)
    ensures FixFields(r, s, [f, g]) == FixField(FixField(r, s, f), s, g)
  {
    assert [f, g] == [f] + [g] && [g] == [g] + [];
    FixFirst(r, s, f, [g]);
    FixFirst(FixField(r, s, f), s, g, []);
  }

  /** The fields of the three kinds of NewWorld ROM are fixed one after the other. */
  lemma FixedInOrder(s: Rom)
    requires IsNewWorld(s)
    ensures HasConfig(s) ==> Fields(s) == [CONFIG_START, CONFIG, RECOVERY, ROM_IMAGE]
    ensures !HasConfig(s) && IsLate(s) ==> Fields(s) == [START, RECOVERY, ROM_IMAGE]
    ensures !HasConfig(s) && !IsLate(s) ==> Fields(s) == [START, EARLY_IMAGE]
    ensures FixFields(s, s, Fields(s)) ==
            if HasConfig(s) then FixField(FixField(FixField(FixField(s, s, CONFIG_START), s, CONFIG), s, RECOVERY), s, ROM_IMAGE)
            else if IsLate(s) then FixField(FixField(FixField(s, s, START), s, RECOVERY), s, ROM_IMAGE)
            else FixField(FixField(s, s, START), s, EARLY_IMAGE)
  {
    hide Calculated, Stored, FixFields, FixField, Date;
    if HasConfig(s) {
      assert Fields(s) == [CONFIG_START] + [CONFIG, RECOVERY, ROM_IMAGE];
      FixFirst(s, s, CONFIG_START, [CONFIG, RECOVERY, ROM_IMAGE]);
      var r := FixField(s, s, CONFIG_START);
      assert [CONFIG, RECOVERY, ROM_IMAGE] == [CONFIG] + [RECOVERY, ROM_IMAGE];
      FixFirst(r, s, CONFIG, [RECOVERY, ROM_IMAGE]);
      FixTwo(FixField(r, s, CONFIG), s, RECOVERY, ROM_IMAGE);
    } else if IsLate(s) {
      assert Fields(s) == [START] + [RECOVERY, ROM_IMAGE];
      FixFirst(s, s, START, [RECOVERY, ROM_IMAGE]);
      FixTwo(FixField(s, s, START), s, RECOVERY, ROM_IMAGE);
    } else {
      FixTwo(s, s, START, EARLY_IMAGE);
    }
  }

  function FixSum32(s: Rom, size: nat): Rom
    requires 4 <= size <= ROM_BUFFER
  {
    if Get32(s, 0) == Sum32(s, size) then s else Put32(s, 0, Sum32(s, size))
  }

  function FixSum64(s: Rom, size: nat): Rom {
    if HasSum64(s, size) && Get64(s, SumField(s)) != Sum64(s) then Put64(s, SumField(s), Sum64(s)) else s
  }

  function Fixed(s: Rom, size: nat): Rom
    requires 4 <= size <= ROM_BUFFER
  {
    if IsNewWorld(s) then FixFields(s, s, Fields(s)) else FixSum64(FixSum32(s, size), size)
  }

  /** Sizes for which the loop over 16-bit words ends. */
  predicate WholeWords(size: nat) { size % 2 == 0 || size >= 0x30_0000 }

  /** What is left to sum, as a 64-bit number, after `n` rounds of that loop. */
  function LeftToSum(length: nat, n: nat): uint64 { Wrap64(length - 2 * n) }

  ghost predicate LoopEnds(length: nat) {
    exists n: nat :: LeftToSum(length, n) == 0
  }

  /** The loop reaches 0 for even lengths only: an odd length wraps around without meeting it. */
  lemma LoopEndsIffEven(length: nat)
    ensures LoopEnds(length) <==> length % 2 == 0
  {
    if length % 2 == 0 {
      assert LeftToSum(length, length / 2) == 0;
    } else {
      forall n: nat
        ensures LeftToSum(length, n) % 2 == 1
      {
        OddStaysOdd(length - 2 * n);
      }
    }
  }

  lemma LoopEndsIffWholeWords(size: nat)
    requires 4 <= size <= ROM_BUFFER
    ensures LoopEnds(SumEnd(size) - 4) <==> WholeWords(size)
  {
    hide LoopEnds;
    LoopEndsIffEven(SumEnd(size) - 4);
  }

  lemma OddStaysOdd(x: int)
    requires x % 2 == 1
    ensures Wrap64(x) % 2 == 1
  {
  }

  method StoreSum(rom: array<uint8>, pos: nat, calculated: uint32, stored: uint32, fix: bool) returns (ok: bool)
    requires pos + 4 <= rom.Length
    modifies rom
    ensures ok == (calculated == stored)
    ensures rom[..] == if ok || !fix then old(rom[..]) else Put32(old(rom[..]), pos, calculated)
  {
    ok := calculated == stored;
    if !ok && fix {
      Write32(rom, pos, calculated);
    }
  }

  method CheckNewWorld(rom: array<uint8>, fix: bool) returns (matched: bool)
    requires rom.Length == ROM_BUFFER && IsNewWorld(rom[..])
    modifies rom
    ensures matched <==> forall f :: f in Fields(old(rom[..])) ==> Stored(old(rom[..]), f) == Calculated(old(rom[..]), f)
    ensures rom[..] == if fix then FixFields(old(rom[..]), old(rom[..]), Fields(old(rom[..]))) else old(rom[..])
  {
    hide Adler32Of, Get16, Get32, Put32, Date, Fields, FixFields, HasConfig;
    ghost var s: Rom := rom[..];
    FixedInOrder(s);
    var hasConfig, late := HasConfig(rom[..]), IsLate(rom[..]);
    var recovery, storedRecovery, image: uint32 := 0, 0, 0;
    if late {
      recovery := Adler32(rom, 0x8000, 0x77FFC);
      storedRecovery := Get32(rom[..], 0x7FFFC);
      image := Adler32(rom, 0x80000, 0x7FFFC);
    } else {
      image := Adler32(rom, 0x4000, 0xFBFFC);
    }
    var storedImage := Get32(rom[..], 0xFFFFC);
    var start, storedStart, config, storedConfig: uint32 := 0, 0, 0, 0;
    if hasConfig {
      start := Adler32(rom, 0, 0x3EFC);
      storedStart := Get32(rom[..], 0x3EFC);
      config := Adler32(rom, 0x3F00, 0x7C);
      storedConfig := Get32(rom[..], 0x3F7C);
    } else {
      start := Adler32(rom, 0, 0x3FFC);
      storedStart := Get32(rom[..], 0x3FFC);
    }
    var a := StoreSum(rom, if hasConfig then 0x3EFC else 0x3FFC, start, storedStart, fix);
    var b := StoreSum(rom, 0x3F7C, config, storedConfig, fix);
    var c := StoreSum(rom, 0x7FFFC, recovery, storedRecovery, fix);
    var d := StoreSum(rom, 0xFFFFC, image, storedImage, fix);
    matched := a && b && c && d;
  }

  method CheckOldWorld(rom: array<uint8>, size: nat, fix: bool) returns (matched: bool)
    requires rom.Length == ROM_BUFFER && 0x1_0000 <= size <= ROM_BUFFER && WholeWords(size)
    modifies rom
    ensures matched <==> Get32(old(rom[..]), 0) == Sum32(old(rom[..]), size)
                         && (HasSum64(old(rom[..]), size) ==> Get64(old(rom[..]), SumField(old(rom[..]))) == Sum64(old(rom[..])))
    ensures rom[..] == if fix then FixSum64(FixSum32(old(rom[..]), size), size) else old(rom[..])
  {
    hide Get64, Put64, Get32, Put32, WordSum, QwordSum;
    var sum := OldWorldChecksum(rom, 4, if size - 4 < 0x2F_FFFC then size - 4 else 0x2F_FFFC);
    matched := StoreSum(rom, 0, sum, Get32(rom[..], 0), fix);
    if size >= ROM_BUFFER {
      var offset := Get32(rom[..], 0x30_0080);
      if 0x30_0000 + offset <= size - 0x64 - 16 {
        var sum64 := OldWorldChecksum64(rom, size, 0x30_0000 + offset);
        if sum64 != Get64(rom[..], 0x30_0020 + offset) {
          matched := false;
          if fix {
            Write64(rom, 0x30_0020 + offset, sum64);
          }
        }
      }
    }
  }

  /** Checks all checksums of a ROM of `size` bytes and stores the right ones if asked to. */
  method CheckRom(rom: array<uint8>, size: nat, fix: bool) returns (matched: bool)
    requires rom.Length == ROM_BUFFER && 0x1_0000 <= size <= ROM_BUFFER
    requires !IsNewWorld(rom[..]) ==> WholeWords(size)
    modifies rom
    ensures matched <==> Consistent(old(rom[..]), size)
    ensures rom[..] == if fix then Fixed(old(rom[..]), size) else old(rom[..])
  {
    if IsNewWorld(rom[..]) {
      matched := CheckNewWorld(rom, fix);
    } else {
      matched := CheckOldWorld(rom, size, fix);
    }
  }
}
