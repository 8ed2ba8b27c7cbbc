/**
 A virtual disk as a list of pieces, each a run of bytes at a position of the disk, and the flat
 disk they stand for: the byte of the piece that covers a position, and zero where none does.
 */
module DiskLayout {
  import opened Words

  datatype Piece = Piece(begin: nat, bytes: seq<uint8>) {
    function End(): nat { begin + |bytes| }

    predicate Covers(p: nat) { begin <= p < End() }

    /** The piece with `w` in place of its bytes from position `from` on. */
    function Overlay(from: nat, w: seq<uint8>): (r: Piece)
      requires begin <= from && from + |w| <= End()
      ensures r.begin == begin && r.End() == End()
    {
      Piece(begin, seq(|bytes|, k requires 0 <= k < |bytes| =>
        if from <= begin + k < from + |w| then w[begin + k - from] else bytes[k]))
    }
  }

  /** The pieces are in order and do not overlap. */
  ghost predicate Laid(ps: seq<Piece>) {
    forall i, j :: 0 <= i < j < |ps| ==> ps[i].End() <= ps[j].begin
  }

  /** The pieces leave no room between them. */
  ghost predicate Contiguous(ps: seq<Piece>) {
    && (ps != [] ==> ps[0].begin == 0)
    && forall i {:trigger ps[i].End()} :: 0 <= i < |ps| - 1 ==> ps[i].End() == ps[i + 1].begin
  }

  function Size(ps: seq<Piece>): nat {
    if ps == [] then 0 else ps[|ps| - 1].End()
  }

  function ByteAt(ps: seq<Piece>, p: nat): uint8 {
    if ps == [] then 0
    else if ps[0].Covers(p) then ps[0].bytes[p - ps[0].begin]
    else ByteAt(ps[1..], p)
  }

  ghost predicate Covered(ps: seq<Piece>, p: nat) {
    exists i :: 0 <= i < |ps| && ps[i].Covers(p)
  }

  /** Every position from `lo` up to `hi` belongs to a piece. */
  ghost predicate NoGap(ps: seq<Piece>, lo: nat, hi: nat) {
    forall p :: lo <= p < hi ==> Covered(ps, p)
  }

  lemma {:induction false} ByteOfPiece(ps: seq<Piece>, i: nat, p: nat)
    requires Laid(ps) && i < |ps| && ps[i].Covers(p)
    ensures ByteAt(ps, p) == ps[i].bytes[p - ps[i].begin]
    decreases i
  {
    if i > 0 {
      assert ps[0].End() <= ps[i].begin;
      ByteOfPiece(ps[1..], i - 1, p);
    }
  }

  lemma {:induction false} ByteOfNone(ps: seq<Piece>, p: nat)
    requires !Covered(ps, p)
    ensures ByteAt(ps, p) == 0
    decreases |ps|
  {
    if ps != [] {
      assert !ps[0].Covers(p);
      forall i | 0 <= i < |ps[1..]|
        ensures !ps[1..][i].Covers(p)
      {
        assert ps[1..][i] == ps[i + 1];
      }
      ByteOfNone(ps[1..], p);
    }
  }

  lemma BeyondSize(ps: seq<Piece>, p: nat)
    requires Laid(ps) && p >= Size(ps)
    ensures !Covered(ps, p) && ByteAt(ps, p) == 0
  {
    ByteOfNone(ps, p);
  }

  /** Contiguous pieces cover everything below their size. */
  lemma {:induction false} ContiguousCovers(ps: seq<Piece>, p: nat)
    requires Contiguous(ps) && p < Size(ps)
    ensures Covered(ps, p)
    decreases |ps|
  {
    var last := |ps| - 1;
    if ps[last].Covers(p) {
    } else {
      assert ps[last].begin > p;
      var rest := ps[..last];
      assert last > 0;
      assert forall i :: 0 <= i < last ==> rest[i] == ps[i];
      assert ps[last - 1].End() == ps[last].begin;
      ContiguousCovers(rest, p);
      var i :| 0 <= i < |rest| && rest[i].Covers(p);
      assert ps[i].Covers(p);
    }
  }

  lemma ContiguousNoGap(ps: seq<Piece>, lo: nat, hi: nat)
    requires Contiguous(ps) && hi <= Size(ps)
    ensures NoGap(ps, lo, hi)
  {
    forall p | lo <= p < hi
      ensures Covered(ps, p)
    {
      ContiguousCovers(ps, p);
    }
  }

  /** The room between two neighbouring pieces belongs to none. */
  lemma GapBetween(ps: seq<Piece>, i: nat, p: nat)
    requires Laid(ps) && i + 1 < |ps| && ps[i].End() <= p < ps[i + 1].begin
    ensures !Covered(ps, p) && p < Size(ps)
  {
    forall j | 0 <= j < |ps|
      ensures !ps[j].Covers(p)
    {
      if j < i {
        assert ps[j].End() <= ps[i].begin;
      } else if j > i + 1 {
        assert ps[i + 1].End() <= ps[j].begin;
      }
    }
    if i + 1 < |ps| - 1 {
      assert ps[i + 1].End() <= ps[|ps| - 1].begin;
    }
  }

  /** Pieces in order leave no room exactly when no position below the end is uncovered. */
  lemma ContiguousIffNoGap(ps: seq<Piece>)
    requires Laid(ps)
    ensures Contiguous(ps) <==> NoGap(ps, 0, Size(ps))
  {
    if Contiguous(ps) {
      ContiguousNoGap(ps, 0, Size(ps));
    } else if ps[0].begin > 0 {
      forall j | 0 <= j < |ps|
        ensures !ps[j].Covers(0)
      {
        assert j > 0 ==> ps[0].End() <= ps[j].begin;
      }
      assert 0 < Size(ps) by {
        assert |ps| > 1 ==> ps[0].End() <= ps[|ps| - 1].begin;
      }
      assert !Covered(ps, 0);
    } else {
      var i :| 0 <= i < |ps| - 1 && ps[i].End() != ps[i + 1].begin;
      assert ps[i].End() <= ps[i + 1].begin;
      GapBetween(ps, i, ps[i].End());
    }
  }

  lemma {:induction false} ContiguousInOrder(ps: seq<Piece>, i: nat, j: nat)
    requires Contiguous(ps) && i < j < |ps|
    ensures ps[i].End() <= ps[j].begin
    decreases j
  {
    assert ps[j - 1].End() == ps[j].begin;
    if i < j - 1 {
      ContiguousInOrder(ps, i, j - 1);
    }
  }

  /** The same runs of the disk, whatever their bytes. */
  ghost predicate SameLayout(ps: seq<Piece>, qs: seq<Piece>) {
    |ps| == |qs| && forall i :: 0 <= i < |ps| ==> ps[i].begin == qs[i].begin && |ps[i].bytes| == |qs[i].bytes|
  }

  lemma SameLayoutCovers(ps: seq<Piece>, qs: seq<Piece>, p: nat)
    requires SameLayout(ps, qs)
    ensures Covered(ps, p) <==> Covered(qs, p)
    ensures Laid(ps) <==> Laid(qs)
  {
    assert forall i :: 0 <= i < |ps| ==> (ps[i].Covers(p) <==> qs[i].Covers(p));
  }

  /**
   In the first `n` pieces of `qs` the positions in [lo, hi) hold `data`, if `exact`, and all other
   positions what they hold in `ps`; the later pieces are those of `ps`.
   */
  ghost predicate Overwritten(ps: seq<Piece>, qs: seq<Piece>, n: nat, lo: nat, hi: nat, data: seq<uint8>, exact: bool)
    requires lo <= hi && hi - lo <= |data|
  {
    && SameLayout(ps, qs)
    && (forall i :: n <= i < |ps| ==> qs[i] == ps[i])
    && (forall i, k :: 0 <= i < n && i < |ps| && 0 <= k < |ps[i].bytes| ==>
          var p := ps[i].begin + k;
          (!(lo <= p < hi) ==> qs[i].bytes[k] == ps[i].bytes[k]) && (exact && lo <= p < hi ==> qs[i].bytes[k] == data[p - lo]))
  }

  /** What an overwriting keeps of piece `i`, and that it has not reached it yet. */
  lemma OverwrittenAt(ps: seq<Piece>, qs: seq<Piece>, i: nat, lo: nat, hi: nat, data: seq<uint8>, exact: bool)
    requires lo <= hi && hi - lo <= |data| && i < |ps| && Overwritten(ps, qs, i, lo, hi, data, exact)
    ensures |qs| == |ps| && qs[i] == ps[i]
  {
  }

  lemma OverwrittenByte(ps: seq<Piece>, qs: seq<Piece>, lo: nat, hi: nat, data: seq<uint8>, exact: bool, p: nat)
    requires Laid(ps) && lo <= hi && hi - lo <= |data| && Overwritten(ps, qs, |ps|, lo, hi, data, exact)
    ensures !(lo <= p < hi) ==> ByteAt(qs, p) == ByteAt(ps, p)
    ensures exact && lo <= p < hi && Covered(ps, p) ==> ByteAt(qs, p) == data[p - lo]
  {
    hide ByteAt, Laid;
    SameLayoutCovers(ps, qs, p);
    if Covered(ps, p) {
      var i :| 0 <= i < |ps| && ps[i].Covers(p);
      var k := p - ps[i].begin;
      ByteOfPiece(ps, i, p);
      ByteOfPiece(qs, i, p);
      assert p == ps[i].begin + k && 0 <= k < |ps[i].bytes|;
    } else {
      ByteOfNone(ps, p);
      ByteOfNone(qs, p);
    }
  }

  /** Overwriting one more piece: `w` replaces the bytes of piece `n` from position `from` to `to`. */
  lemma OverwriteNext(ps: seq<Piece>, qs: seq<Piece>, n: nat, lo: nat, hi: nat, data: seq<uint8>, exact: bool,
                      from: nat, w: seq<uint8>, exactNext: bool)
    requires lo <= hi && hi - lo <= |data| && n < |ps| && Overwritten(ps, qs, n, lo, hi, data, exact)
    requires ps[n].begin <= from && lo <= from && from + |w| <= ps[n].End() && from + |w| <= hi
    requires exactNext ==> exact
                           && (forall p :: lo <= p < hi && ps[n].Covers(p) ==> from <= p < from + |w|)
                           && w == data[from - lo..from - lo + |w|]
    ensures Overwritten(ps, qs[n := ps[n].Overlay(from, w)], n + 1, lo, hi, data, exactNext)
  {
    var rs := qs[n := ps[n].Overlay(from, w)];
    forall i, k | 0 <= i < n + 1 && 0 <= k < |ps[i].bytes|
      ensures var p := ps[i].begin + k;
              (!(lo <= p < hi) ==> rs[i].bytes[k] == ps[i].bytes[k]) && (exactNext && lo <= p < hi ==> rs[i].bytes[k] == data[p - lo])
    {
      if i == n {
        assert ps[n].Covers(ps[n].begin + k);
      }
    }
  }

  lemma OverwriteSkip(ps: seq<Piece>, qs: seq<Piece>, n: nat, m: nat, lo: nat, hi: nat, data: seq<uint8>, exact: bool)
    requires lo <= hi && hi - lo <= |data| && n <= m <= |ps| && Overwritten(ps, qs, n, lo, hi, data, exact)
    requires forall i :: n <= i < m ==> ps[i].End() <= lo || hi <= ps[i].begin || ps[i].bytes == []
    ensures Overwritten(ps, qs, m, lo, hi, data, exact)
  {
  }

  /** A disk whose first piece grows by `d` bytes and whose other pieces move up by `d`. */
  ghost predicate MovedUp(ps: seq<Piece>, qs: seq<Piece>, d: nat) {
    && |ps| == |qs| && |ps| > 0 && ps[0].begin == 0 == qs[0].begin && |qs[0].bytes| == |ps[0].bytes| + d
    && forall i :: 0 < i < |ps| ==> qs[i] == ps[i].(begin := ps[i].begin + d)
  }

  function MoveUp(ps: seq<Piece>, bytes: seq<uint8>, d: nat): (qs: seq<Piece>)
    requires |ps| > 0 && ps[0].begin == 0 && |bytes| == |ps[0].bytes| + d
    ensures |qs| == |ps| && MovedUp(ps, qs, d) && qs[0] == Piece(0, bytes)
  {
    seq(|ps|, i requires 0 <= i < |ps| => if i == 0 then Piece(0, bytes) else ps[i].(begin := ps[i].begin + d))
  }

  lemma MovedUpAt(ps: seq<Piece>, qs: seq<Piece>, d: nat, i: nat)
    requires MovedUp(ps, qs, d) && 0 < i < |ps|
    ensures qs[i] == ps[i].(begin := ps[i].begin + d)
  {
  }

  lemma MovedUpByNone(ps: seq<Piece>)
    requires |ps| > 0 && ps[0].begin == 0
    ensures MovedUp(ps, ps, 0)
  {
  }

  lemma MovedUpLaid(ps: seq<Piece>, qs: seq<Piece>, d: nat)
    requires Laid(ps) && MovedUp(ps, qs, d)
    ensures Laid(qs) && Size(qs) == Size(ps) + d
    ensures Contiguous(ps) <==> Contiguous(qs)
  {
    assert forall i :: 0 <= i < |ps| ==> qs[i].End() == ps[i].End() + d;
  }

  /** Every byte from `cut` on is found `d` positions higher. */
  lemma MovedUpByte(ps: seq<Piece>, qs: seq<Piece>, d: nat, cut: nat, p: nat)
    requires Laid(ps) && MovedUp(ps, qs, d) && cut <= |ps[0].bytes| && cut <= p
    requires forall k :: cut <= k < |ps[0].bytes| ==> qs[0].bytes[k + d] == ps[0].bytes[k]
    ensures ByteAt(qs, p + d) == ByteAt(ps, p)
  {
    hide ByteAt, Laid, Size, Contiguous;
    MovedUpLaid(ps, qs, d);
    MovedUpCovers(ps, qs, d, p);
    if Covered(ps, p) {
      var i :| 0 <= i < |ps| && ps[i].Covers(p);
      ByteOfPiece(ps, i, p);
      ByteOfPiece(qs, i, p + d);
    } else {
      ByteOfNone(ps, p);
      ByteOfNone(qs, p + d);
    }
  }

  lemma MovedUpCovers(ps: seq<Piece>, qs: seq<Piece>, d: nat, p: nat)
    requires MovedUp(ps, qs, d)
    ensures forall i :: 0 <= i < |ps| ==> (ps[i].Covers(p) ==> qs[i].Covers(p + d)) && (qs[i].Covers(p + d) ==> ps[i].Covers(p))
  {
  }

  /** A position belongs to a piece exactly when it does after the move. */
  lemma MovedUpCovered(ps: seq<Piece>, qs: seq<Piece>, d: nat, p: nat)
    requires MovedUp(ps, qs, d)
    ensures Covered(ps, p) <==> Covered(qs, p + d)
  {
    MovedUpCovers(ps, qs, d, p);
    if Covered(ps, p) {
      var i :| 0 <= i < |ps| && ps[i].Covers(p);
      assert qs[i].Covers(p + d);
    }
    if Covered(qs, p + d) {
      var i :| 0 <= i < |qs| && qs[i].Covers(p + d);
      assert ps[i].Covers(p);
    }
  }

  // ----- Changing the first piece, and adding one at the end

  lemma FirstReplaced(ps: seq<Piece>, bytes: seq<uint8>, p: nat)
    requires Laid(ps) && |ps| > 0 && ps[0].begin == 0 && |bytes| == |ps[0].bytes|
    ensures var qs := ps[0 := Piece(0, bytes)];
            Laid(qs) && Size(qs) == Size(ps) && ByteAt(qs, p) == if p < |bytes| then bytes[p] else ByteAt(ps, p)
    ensures Covered(ps[0 := Piece(0, bytes)], p) <==> Covered(ps, p)
    ensures Contiguous(ps) ==> Contiguous(ps[0 := Piece(0, bytes)])
  {
    var qs := ps[0 := Piece(0, bytes)];
    assert qs[1..] == ps[1..];
    assert SameLayout(ps, qs);
    SameLayoutCovers(ps, qs, p);
  }

  lemma PieceAdded(ps: seq<Piece>, w: Piece, p: nat)
    requires Laid(ps) && Size(ps) <= w.begin
    ensures Laid(ps + [w]) && Size(ps + [w]) == w.End()
    ensures ByteAt(ps + [w], p) == if w.Covers(p) then w.bytes[p - w.begin] else ByteAt(ps, p)
    ensures Covered(ps + [w], p) <==> w.Covers(p) || Covered(ps, p)
  {
    PieceAddedLaid(ps, w);
    var qs := ps + [w];
    if w.Covers(p) {
      assert qs[|ps|].Covers(p);
      ByteOfPiece(qs, |ps|, p);
    } else if Covered(ps, p) {
      var i :| 0 <= i < |ps| && ps[i].Covers(p);
      ByteOfPiece(ps, i, p);
      ByteOfPiece(qs, i, p);
    } else {
      ByteOfNone(ps, p);
      assert forall i :: 0 <= i < |ps| ==> !ps[i].Covers(p);
      assert !Covered(qs, p);
      ByteOfNone(qs, p);
    }
  }

  lemma PieceAddedLaid(ps: seq<Piece>, w: Piece)
    requires Laid(ps) && Size(ps) <= w.begin
    ensures Laid(ps + [w])
    ensures Contiguous(ps + [w]) <==> Contiguous(ps) && w.begin == Size(ps)
  {
    var qs := ps + [w];
    assert forall i :: 0 <= i < |ps| ==> qs[i] == ps[i];
    forall i | 0 <= i < |ps|
      ensures ps[i].End() <= w.begin
    {
      assert i < |ps| - 1 ==> ps[i].End() <= ps[|ps| - 1].begin;
    }
    if Contiguous(qs) {
      assert ps != [] ==> qs[|ps| - 1].End() == qs[|ps|].begin;
      forall i | 0 <= i < |ps| - 1
        ensures ps[i].End() == ps[i + 1].begin
      {
        assert qs[i].End() == qs[i + 1].begin;
      }
    }
  }
}
