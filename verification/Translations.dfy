/**
 The listing of address translations of mmu_dump_translations in debugger/debugger.cpp. The page
 map is a parameter: for each of the 2^20 pages its physical address, if there is one.
 */
module Translations {
  import opened Words

  const PAGES := 0x10_0000

  datatype Option<T> = None | Some(value: T)

  type PageMap = m: seq<Option<uint32>> | |m| == PAGES witness seq(PAGES, _ => None)

  /** One printed line: virtual addresses and the physical addresses they stand for. */
  datatype Range = Range(virtStart: uint32, virtEnd: uint32, physStart: uint32, physEnd: uint32)

  // ----- What the lines say

  predicate Covers(r: Range, page: nat) { r.virtStart <= page * 4096 <= r.virtEnd }

  /** The translation that the lines give for a page. */
  function Expanded(ranges: seq<Range>, page: nat): Option<int> {
    if ranges == [] then None
    else
      var r := ranges[|ranges| - 1];
      if Covers(r, page) then Some(r.physStart + page * 4096 - r.virtStart) else Expanded(ranges[..|ranges| - 1], page)
  }

  function Translated(m: PageMap, page: nat): Option<int>
    requires page < PAGES
  {
    match m[page]
    case None => None
    case Some(a) => Some(a)
  }

  /** Whole pages, with the last physical byte computed modulo 2^32. */
  predicate WellFormed(r: Range) {
    && r.virtStart % 4096 == 0 && r.virtEnd % 4096 == 4095 && r.virtStart < r.virtEnd
    && r.physEnd == Wrap32(r.physStart + (r.virtEnd - r.virtStart))
  }

  /** The second line goes on where the first ends, in both address spaces. */
  predicate Joinable(r: Range, s: Range) {
    s.virtStart == r.virtEnd + 1 && s.physStart == r.physStart + (r.virtEnd + 1 - r.virtStart)
  }

  /** Lines in order, not overlapping, and no two neighbours could be one. */
  ghost predicate Maximal(ranges: seq<Range>) {
    && (forall i :: 0 <= i < |ranges| ==> WellFormed(ranges[i]))
    && (forall i, j :: 0 <= i < j < |ranges| ==> ranges[i].virtEnd < ranges[j].virtStart)
    && (forall i :: 0 < i < |ranges| ==> !Joinable(ranges[i - 1], ranges[i]))
  }

  /** Page 0 physically continues the last page. */
  predicate WrapsAround(m: PageMap) {
    m[0].Some? && m[PAGES - 1].Some? && m[0].value == m[PAGES - 1].value + 4096
  }

  /** From this page to the last one the map is one stretch. */
  ghost predicate InLastRun(m: PageMap, page: nat)
    requires page < PAGES
  {
    m[page].Some? && forall q :: page <= q < PAGES ==> m[q] == Some(m[page].value + (q - page) * 4096)
  }

  // ----- The loop

  /** The pages from `first` to `i` are one stretch that begins at `phys` and does not continue page `first` - 1. */
  ghost predicate Open(m: PageMap, first: nat, i: nat, phys: uint32)
    requires i <= PAGES
  {
    && first < i
    && (forall q :: first <= q < i ==> m[q].Some? && m[q].value == phys + (q - first) * 4096)
    && (first > 0 && m[first - 1].Some? ==> m[first - 1].value + 4096 != phys)
  }

  /** The lines are right for the pages before `n` and say nothing about the others. */
  ghost predicate Right(m: PageMap, ranges: seq<Range>, n: nat)
    requires n <= PAGES
  {
    && Maximal(ranges)
    && (forall i :: 0 <= i < |ranges| ==> ranges[i].virtEnd < n * 4096)
    && (forall p :: 0 <= p < PAGES ==> Expanded(ranges, p) == if p < n then Translated(m, p) else None)
  }

  lemma NothingExpanded(m: PageMap)
    ensures Right(m, [], 0)
  {
  }

  /** The last line and the new one could not be one, because the stretch did not continue the page before it. */
  lemma NotJoined(m: PageMap, ranges: seq<Range>, first: nat, i: nat, phys: uint32, r: Range)
    requires i <= PAGES && Open(m, first, i, phys) && Right(m, ranges, first) && ranges != []
    requires r.virtStart == first * 4096 && r.physStart == phys
    ensures !Joinable(ranges[|ranges| - 1], r)
  {
    var last := ranges[|ranges| - 1];
    if last.virtEnd + 1 == first * 4096 {
      assert Covers(last, first - 1);
      assert Expanded(ranges, first - 1) == Translated(m, first - 1);
    }
  }

  /** The line that is printed when the page before address `virtAddr` ends a stretch. */
  function Line(virtStart: uint32, virtAddr: uint32, physStart: uint32): Range {
    Range(virtStart, Wrap32(virtAddr - 1), physStart, Wrap32(physStart + virtAddr - 1 - virtStart))
  }

  /** Its numbers do not depend on the wrap-around of the address. */
  lemma LineAt(i: nat, virtStart: uint32, physStart: uint32)
    requires 0 < i <= PAGES
    ensures Line(virtStart, Wrap32(i * 4096), physStart) ==
            Range(virtStart, i * 4096 - 1, physStart, Wrap32(physStart + i * 4096 - 1 - virtStart))
  {
  }

  lemma LineExpanded(m: PageMap, ranges: seq<Range>, first: nat, i: nat, phys: uint32, r: Range, p: nat)
    requires i <= PAGES && p < PAGES && Open(m, first, i, phys)
    requires Expanded(ranges, p) == if p < first then Translated(m, p) else None
    requires r.virtStart == first * 4096 && r.virtEnd == i * 4096 - 1 && r.physStart == phys
    ensures Expanded(ranges + [r], p) == if p < i then Translated(m, p) else None
  {
  }

  lemma LineInOrder(ranges: seq<Range>, r: Range)
    requires Maximal(ranges) && WellFormed(r) && forall i :: 0 <= i < |ranges| ==> ranges[i].virtEnd < r.virtStart
    requires ranges != [] ==> !Joinable(ranges[|ranges| - 1], r)
    ensures Maximal(ranges + [r])
  {
    hide WellFormed, Joinable;
  }

  /** A stretch that ends before page `i` becomes the next line. */
  lemma LineAdded(m: PageMap, ranges: seq<Range>, first: nat, i: nat, phys: uint32, r: Range)
    requires i <= PAGES && Open(m, first, i, phys) && Right(m, ranges, first)
    requires r == Range(first * 4096, i * 4096 - 1, phys, Wrap32(phys + i * 4096 - 1 - first * 4096))
    ensures Right(m, ranges + [r], i)
  {
    hide Expanded, Maximal, Joinable;
    forall p | 0 <= p < PAGES
      ensures Expanded(ranges + [r], p) == if p < i then Translated(m, p) else None
    {
      LineExpanded(m, ranges, first, i, phys, r, p);
    }
    if ranges != [] {
      NotJoined(m, ranges, first, i, phys, r);
    }
    LineInOrder(ranges, r);
  }

  /** A page that is not mapped adds nothing. */
  lemma PageSkipped(m: PageMap, ranges: seq<Range>, i: nat)
    requires i < PAGES && Right(m, ranges, i) && m[i].None?
    ensures Right(m, ranges, i + 1)
  {
  }

  /** The state of the loop before page `i`. */
  ghost predicate Listing(m: PageMap, ranges: seq<Range>, i: nat, virtStart: uint32, physStart: uint32, physEnd: uint32)
    requires i <= PAGES
  {
    if virtStart == 1 then
      Right(m, ranges, i) && (i > 0 ==> m[i - 1].None?)
    else
      && i > 0 && virtStart % 4096 == 0 && Open(m, virtStart / 4096, i, physStart)
      && Right(m, ranges, virtStart / 4096) && m[i - 1] == Some(physEnd)
  }

  /** The lines say everything but a last stretch that page 0 continues. */
  ghost predicate Listed(m: PageMap, ranges: seq<Range>) {
    && Maximal(ranges)
    && forall p :: 0 <= p < PAGES ==> Expanded(ranges, p) == if WrapsAround(m) && InLastRun(m, p) then None else Translated(m, p)
  }

  /** A page that begins a stretch. */
  lemma Begun(m: PageMap, ranges: seq<Range>, i: nat)
    requires i < PAGES && m[i].Some? && Right(m, ranges, i)
    requires i > 0 && m[i - 1].Some? ==> m[i - 1].value + 4096 != m[i].value
    ensures Listing(m, ranges, i + 1, i * 4096, m[i].value, m[i].value)
  {
  }

  /** A page that continues the stretch. */
  lemma Continued(m: PageMap, ranges: seq<Range>, i: nat, virtStart: uint32, physStart: uint32, physEnd: uint32)
    requires i < PAGES && virtStart != 1 && Listing(m, ranges, i, virtStart, physStart, physEnd)
    requires m[i].Some? && m[i].value == physEnd + 4096
    ensures Listing(m, ranges, i + 1, virtStart, physStart, m[i].value)
  {
  }

  lemma AllListed(m: PageMap, ranges: seq<Range>)
    requires Right(m, ranges, PAGES) && !WrapsAround(m)
    ensures Listed(m, ranges)
  {
  }

  /** The stretch at the end is not listed when page 0 continues it. */
  lemma LastLost(m: PageMap, ranges: seq<Range>, virtStart: uint32, physStart: uint32, physEnd: uint32)
    requires virtStart != 1 && Listing(m, ranges, PAGES, virtStart, physStart, physEnd)
    requires m[0].Some? && m[0].value == physEnd + 4096
    ensures Listed(m, ranges)
  {
  }

  /** The listing gives back the page map exactly when page 0 does not continue the last page. */
  lemma LosslessIff(m: PageMap, ranges: seq<Range>)
    requires Listed(m, ranges)
    ensures (forall p :: 0 <= p < PAGES ==> Expanded(ranges, p) == Translated(m, p)) <==> !WrapsAround(m)
  {
    hide Maximal, Expanded;
    if WrapsAround(m) {
      assert InLastRun(m, PAGES - 1);
      assert Expanded(ranges, PAGES - 1) == None;
    }
  }

  /** A page that a line covers is translated by that line, as the lines do not overlap. */
  lemma {:induction false} ExpandedByLine(ranges: seq<Range>, i: nat, p: nat)
    requires Maximal(ranges) && i < |ranges| && Covers(ranges[i], p)
    ensures Expanded(ranges, p) == Some(ranges[i].physStart + p * 4096 - ranges[i].virtStart)
    decreases |ranges|
  {
    var n := |ranges| - 1;
    if i < n {
      ExpandedByLine(ranges[..n], i, p);
    }
  }

  lemma {:induction false} ExpandedByNone(ranges: seq<Range>, p: nat)
    ensures Expanded(ranges, p).Some? <==> exists i :: 0 <= i < |ranges| && Covers(ranges[i], p)
    decreases |ranges|
  {
    if ranges != [] {
      var n := |ranges| - 1;
      ExpandedByNone(ranges[..n], p);
      if i: nat :| i < |ranges| && Covers(ranges[i], p) {
        assert i < n ==> ranges[..n][i] == ranges[i];
      }
    }
  }

  /** The line that covers the page tells its translation. */
  ghost predicate Tells(m: PageMap, r: Range, p: nat) {
    r.virtStart <= p * 4096 <= r.virtEnd && p < PAGES && m[p] == Some(r.physStart + p * 4096 - r.virtStart)
  }

  /**
   What the lines say, page by page: a page between the ends of a line is mapped to the address at the
   same distance from the physical start, and every mapped page is in a line, except those from which on
   all pages follow each other up to the last one when page 0 follows that.
   */
  lemma PagesTold(m: PageMap, ranges: seq<Range>, p: nat)
    requires Listed(m, ranges) && p < 0x10_0000
    ensures forall i :: 0 <= i < |ranges| && ranges[i].virtStart <= p * 4096 <= ranges[i].virtEnd ==>
              m[p] == Some(ranges[i].physStart + p * 4096 - ranges[i].virtStart)
    ensures m[p].Some? && !(exists i :: 0 <= i < |ranges| && Tells(m, ranges[i], p)) <==>
            && m[0].Some? && m[0xF_FFFF].Some? && m[0].value == m[0xF_FFFF].value + 4096
            && m[p].Some? && forall q :: p <= q < 0x10_0000 ==> m[q] == Some(m[p].value + (q - p) * 4096)
  {
    hide Maximal, Expanded;
    forall i | 0 <= i < |ranges| && Covers(ranges[i], p)
      ensures Tells(m, ranges[i], p)
    {
      ExpandedByLine(ranges, i, p);
    }
    ExpandedByNone(ranges, p);
  }

  /** And what each line looks like. */
  lemma LinesWhole(m: PageMap, ranges: seq<Range>, i: nat)
    requires Listed(m, ranges) && i < |ranges|
    ensures var r := ranges[i];
            && r.virtStart % 4096 == 0 && (r.virtEnd + 1) % 4096 == 0 && r.virtStart < r.virtEnd
            && r.physEnd == (r.physStart + (r.virtEnd - r.virtStart)) % 0x1_0000_0000
            && (i > 0 ==> ranges[i - 1].virtEnd < r.virtStart
                          && !(r.virtStart == ranges[i - 1].virtEnd + 1
                               && r.physStart - ranges[i - 1].physStart == r.virtStart - ranges[i - 1].virtStart))
  {
  }

  /**
   Lists the translations. The lines are right for every page, except that the stretch that ends at
   the last page is not listed when page 0 physically continues it.
   */
  method DumpTranslations(m: PageMap) returns (ranges: seq<Range>)
    ensures Listed(m, ranges) && Maximal(ranges)
    ensures forall p :: 0 <= p < PAGES ==>
              Expanded(ranges, p) == if WrapsAround(m) && InLastRun(m, p) then None else Translated(m, p)
    ensures (forall p :: 0 <= p < PAGES ==> Expanded(ranges, p) == Translated(m, p)) <==> !WrapsAround(m)
  {
    hide Right, Open, Maximal, InLastRun, Expanded, Translated, Line;
    ranges := [];
    var virtStart: uint32, physStart: uint32, physEnd: uint32 := 1, 0, 0;
    var virtAddr: uint32 := 0;
    var i := 0;
    NothingExpanded(m);
    while i <= PAGES
      invariant 0 <= i <= PAGES + 1 && virtAddr == Wrap32(i * 4096)
      invariant i <= PAGES ==> Listing(m, ranges, i, virtStart, physStart, physEnd)
      invariant i == PAGES + 1 ==> Listed(m, ranges)
    {
      var result := m[virtAddr / 4096];
      if virtStart != 1 && (result.None? || result.value != physEnd + 4096) {
        var line := Line(virtStart, virtAddr, physStart);
        LineAt(i, virtStart, physStart);
        LineAdded(m, ranges, virtStart / 4096, i, physStart, line);
        ranges := ranges + [line];
        if i == PAGES {
          AllListed(m, ranges);
        } else if result.Some? {
          Begun(m, ranges, i);
        } else {
          PageSkipped(m, ranges, i);
        }
        if result.Some? {
          virtStart, physStart, physEnd := virtAddr, result.value, result.value;
        } else {
          virtStart := 1;
        }
      } else if result.Some? {
        if i == PAGES {
          if virtStart == 1 {
            AllListed(m, ranges);
          } else {
            LastLost(m, ranges, virtStart, physStart, physEnd);
          }
        } else if virtStart == 1 {
          Begun(m, ranges, i);
        } else {
          Continued(m, ranges, i, virtStart, physStart, physEnd);
        }
        if virtStart == 1 {
          virtStart, physStart := virtAddr, result.value;
        }
        physEnd := result.value;
      } else if i == PAGES {
        AllListed(m, ranges);
      } else {
        PageSkipped(m, ranges, i);
      }
      virtAddr := Wrap32(virtAddr + 4096);
      i := i + 1;
    }
    LosslessIff(m, ranges);
  }
}
