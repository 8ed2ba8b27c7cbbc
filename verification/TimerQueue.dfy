/**
 The timer queue of core/timermanager.h: a priority queue of shared timer objects, kept as a
 binary heap in a vector, from which any element can be removed by its id.
 */
module TimerQueue {
  import opened Words

  /** What a timer runs when it fires. The queue never looks inside. */
  type TimerCb = nat

  /** One timer. The same object is shared by the queue and by whoever is firing it. */
  class TimerInfo {
    const id: uint32
    var timeoutNs: uint64
    const intervalNs: uint64
    const cb: TimerCb

    constructor (id: uint32, timeoutNs: uint64, intervalNs: uint64, cb: TimerCb)
      ensures this.id == id && this.timeoutNs == timeoutNs && this.intervalNs == intervalNs && this.cb == cb
    {
      this.id, this.timeoutNs, this.intervalNs, this.cb := id, timeoutNs, intervalNs, cb;
    }
  }

  /** `MyGtComparator`: `l` is due after `r`, by timeout and then by id. */
  predicate Gt(l: TimerInfo, r: TimerInfo)
    reads l, r
  {
    l.timeoutNs > r.timeoutNs || (l.timeoutNs == r.timeoutNs && l.id > r.id)
  }

  function Parent(k: nat): nat
    requires 0 < k
  {
    (k - 1) / 2
  }

  /** Section [alg.heap.operations] of ISO/IEC 14882:2020: no element is due before its parent. */
  ghost predicate IsHeap(v: seq<TimerInfo>)
    reads v
  {
    forall k :: 0 < k < |v| ==> !Gt(v[Parent(k)], v[k])
  }

  /** The heap order below position `from` of the first `n` elements. */
  ghost predicate IsHeapFrom(v: seq<TimerInfo>, n: nat, from: nat)
    requires n <= |v|
    reads v
  {
    forall k :: 0 < k < n && Parent(k) >= from ==> !Gt(v[Parent(k)], v[k])
  }

  /** The root of a heap is due no later than any element. */
  lemma {:induction false} RootIsLeast(v: seq<TimerInfo>, k: nat)
    requires IsHeap(v) && k < |v|
    ensures v[0].timeoutNs < v[k].timeoutNs || (v[0].timeoutNs == v[k].timeoutNs && v[0].id <= v[k].id)
    decreases k
  {
    if k > 0 {
      RootIsLeast(v, Parent(k));
    }
  }

  function Swap(v: seq<TimerInfo>, i: nat, j: nat): (w: seq<TimerInfo>)
    requires i < |v| && j < |v|
    ensures multiset(w) == multiset(v)
  {
    v[i := v[j]][j := v[i]]
  }

  /** A heap, except that the element at `i` may be due before its parent. */
  ghost predicate HeapExceptAbove(v: seq<TimerInfo>, i: nat)
    reads v
  {
    && (forall k :: 0 < k < |v| && k != i ==> !Gt(v[Parent(k)], v[k]))
    && (forall k :: 0 < k < |v| && i > 0 && Parent(k) == i < |v| ==> !Gt(v[Parent(i)], v[k]))
  }

  /** One step up. */
  lemma SiftUpStep(v: seq<TimerInfo>, i: nat)
    requires 0 < i < |v| && HeapExceptAbove(v, i) && Gt(v[Parent(i)], v[i])
    ensures HeapExceptAbove(Swap(v, i, Parent(i)), Parent(i))
  {
    var p := Parent(i);
    var w := Swap(v, i, p);
    forall k | 0 < k < |v| && k != p
      ensures !Gt(w[Parent(k)], w[k])
    {
      assert k == i || (w[k] == v[k] && !Gt(v[Parent(k)], v[k]));
    }
  }

  /** `std::push_heap`: the last element is sifted up into the heap before it. */
  method PushHeap(v0: seq<TimerInfo>) returns (v: seq<TimerInfo>)
    requires |v0| > 0 && IsHeap(v0[..|v0| - 1])
    ensures IsHeap(v) && multiset(v) == multiset(v0)
  {
    v := v0;
    var i := |v| - 1;
    assert HeapExceptAbove(v, i) by {
      assert forall k :: 0 <= k < i ==> v[k] == v0[..i][k];
    }
    while i > 0 && Gt(v[Parent(i)], v[i])
      invariant 0 <= i < |v| == |v0|
      invariant multiset(v) == multiset(v0)
      invariant HeapExceptAbove(v, i)
    {
      SiftUpStep(v, i);
      v, i := Swap(v, i, Parent(i)), Parent(i);
    }
  }

  /** In order below `from`, except that the element at `i` may be due after its children. */
  ghost predicate InOrderExcept(v: seq<TimerInfo>, n: nat, from: nat, i: nat)
    requires n <= |v|
    reads v
  {
    && (forall k :: 0 < k < n && Parent(k) >= from && Parent(k) != i ==> !Gt(v[Parent(k)], v[k]))
    && (i > from ==> Parent(i) >= from)
    && (forall k :: 0 < k < n && i > from && Parent(k) == i ==> !Gt(v[Parent(i)], v[k]))
  }

  /** Of the children of `i`, the one at `child` is due first. */
  ghost predicate FirstChild(v: seq<TimerInfo>, n: nat, i: nat, child: nat)
    requires child < n <= |v|
    reads v
  {
    forall k :: 0 < k < n && Parent(k) == i ==> !Gt(v[child], v[k])
  }

  function EarlierChild(v: seq<TimerInfo>, n: nat, i: nat): (child: nat)
    requires 2 * i + 1 < n <= |v|
    reads v
    ensures i < child < n && Parent(child) == i && FirstChild(v, n, i, child)
  {
    var left := 2 * i + 1;
    var child := if left + 1 < n && Gt(v[left], v[left + 1]) then left + 1 else left;
    assert forall k :: 0 < k < n && Parent(k) == i ==> k == left || k == left + 1;
    child
  }

  /** One step down: the hole's element swaps with the child that is due first. */
  lemma SiftStep(v: seq<TimerInfo>, n: nat, from: nat, i: nat, child: nat)
    requires from <= i < child < n <= |v| && Parent(child) == i
    requires InOrderExcept(v, n, from, i)
    requires Gt(v[i], v[child])
    requires FirstChild(v, n, i, child)
    ensures InOrderExcept(Swap(v, i, child), n, from, child)
  {
    var w := Swap(v, i, child);
    forall k | 0 < k < n && Parent(k) >= from && Parent(k) != child
      ensures !Gt(w[Parent(k)], w[k])
    {
      assert k == child || (k == i && w[Parent(k)] == v[Parent(k)]) || w[k] == v[k];
    }
  }

  lemma SwapFrame(v: seq<TimerInfo>, i: nat, j: nat)
    requires i < |v| && j < |v|
    ensures var w := Swap(v, i, j);
            |w| == |v| && multiset(w) == multiset(v) && forall k :: 0 <= k < |v| && k != i && k != j ==> w[k] == v[k]
  {
  }

  lemma Opened(v: seq<TimerInfo>, n: nat, from: nat)
    requires n <= |v| && IsHeapFrom(v, n, from + 1)
    ensures InOrderExcept(v, n, from, from)
  {
  }

  /** The sifted element has come to rest: above its children, or where there are none. */
  lemma Settled(v: seq<TimerInfo>, n: nat, from: nat, i: nat, child: nat)
    requires child < n <= |v| && InOrderExcept(v, n, from, i) && FirstChild(v, n, i, child) && i < n && !Gt(v[i], v[child])
    ensures IsHeapFrom(v, n, from)
  {
  }

  lemma Bottom(v: seq<TimerInfo>, n: nat, from: nat, i: nat)
    requires n <= |v| && InOrderExcept(v, n, from, i) && n <= 2 * i + 1
    ensures IsHeapFrom(v, n, from)
  {
  }

  /** Sifts the element at `from` down among the first `n`. */
  method SiftDown(v0: seq<TimerInfo>, n: nat, from: nat) returns (v: seq<TimerInfo>)
    requires from < n <= |v0| && IsHeapFrom(v0, n, from + 1)
    ensures |v| == |v0| && (forall k :: n <= k < |v| ==> v[k] == v0[k]) && multiset(v) == multiset(v0)
    ensures IsHeapFrom(v, n, from)
  {
    hide InOrderExcept, FirstChild, Swap;
    v := v0;
    var i := from;
    Opened(v, n, from);
    while 2 * i + 1 < n
      invariant from <= i < n <= |v| == |v0|
      invariant (forall k :: n <= k < |v| ==> v[k] == v0[k]) && multiset(v) == multiset(v0)
      invariant InOrderExcept(v, n, from, i)
      decreases n - i
    {
      var child := EarlierChild(v, n, i);
      if !Gt(v[i], v[child]) {
        Settled(v, n, from, i, child);
        return;
      }
      SiftStep(v, n, from, i, child);
      SwapFrame(v, i, child);
      v, i := Swap(v, i, child), child;
    }
    Bottom(v, n, from, i);
  }

  /** `std::pop_heap`: the root goes to the back and the rest is a heap again. */
  method PopHeap(v0: seq<TimerInfo>) returns (v: seq<TimerInfo>)
    requires |v0| > 0 && IsHeap(v0)
    ensures |v| == |v0| && v[|v| - 1] == v0[0] && multiset(v) == multiset(v0)
    ensures IsHeap(v[..|v| - 1])
  {
    var n := |v0| - 1;
    v := Swap(v0, 0, n);
    if n > 0 {
      v := SiftDown(v, n, 0);
    }
  }

  /** `std::make_heap`. */
  method MakeHeap(v0: seq<TimerInfo>) returns (v: seq<TimerInfo>)
    ensures IsHeap(v) && multiset(v) == multiset(v0)
  {
    v := v0;
    var i := |v| / 2;
    while i > 0
      invariant 0 <= i <= |v| / 2 && |v| == |v0|
      invariant multiset(v) == multiset(v0)
      invariant IsHeapFrom(v, |v|, i)
    {
      i := i - 1;
      v := SiftDown(v, |v|, i);
    }
  }

  lemma EraseMultiset(v: seq<TimerInfo>, k: nat)
    requires k < |v|
    ensures multiset(v[..k] + v[k + 1..]) == multiset(v) - multiset{v[k]}
  {
    assert v == v[..k] + [v[k]] + v[k + 1..];
  }

  /** The first timer in the vector that carries the id. */
  predicate FirstMatch(c: seq<TimerInfo>, k: nat, id: uint32) {
    k < |c| && c[k].id == id && forall j :: 0 <= j < k ==> c[j].id != id
  }

  /** `my_priority_queue`. Elements are due in the order of their root-first removal. */
  class PriorityQueue {
    var c: seq<TimerInfo>

    ghost predicate Valid()
      reads this, c
    {
      IsHeap(c)
    }

    constructor ()
      ensures Valid() && c == []
    {
      c := [];
    }

    method Push(val: TimerInfo)
      requires Valid()
      modifies this
      ensures Valid() && multiset(c) == multiset(old(c)) + multiset{val}
    {
      assert (c + [val])[..|c|] == c;
      var v := PushHeap(c + [val]);
      c := v;
    }

    method Pop() returns (val: TimerInfo)
      requires Valid() && |c| > 0
      modifies this
      ensures Valid() && val == old(c)[0]
      ensures multiset(c) == multiset(old(c)) - multiset{val}
    {
      val := c[0];
      var v := PopHeap(c);
      EraseMultiset(v, |v| - 1);
      assert v[..|v| - 1] + v[|v|..] == v[..|v| - 1];
      c := v[..|v| - 1];
    }

    /** Removes the first timer of the vector with this id, if there is one. */
    method RemoveById(id: uint32) returns (removed: bool)
      requires Valid()
      modifies this
      ensures Valid()
      ensures removed <==> exists t :: t in old(c) && t.id == id
      ensures removed ==> exists k: nat :: FirstMatch(old(c), k, id) && multiset(c) == multiset(old(c)) - multiset{old(c)[k]}
      ensures !removed ==> c == old(c)
    {
      if |c| == 0 {
        return false;
      }
      if c[0].id == id {
        assert FirstMatch(c, 0, id);
        var _ := Pop();
        return true;
      }
      var it := 0;
      while it < |c| && c[it].id != id
        invariant 0 <= it <= |c|
        invariant forall k :: 0 <= k < it ==> c[k].id != id
      {
        it := it + 1;
      }
      if it == |c| {
        return false;
      }
      assert FirstMatch(c, it, id);
      EraseMultiset(c, it);
      var v := MakeHeap(c[..it] + c[it + 1..]);
      c := v;
      return true;
    }
  }
}
