/**
 What one call of `process_timers` does: every expired timer fires exactly once unless a callback
 cancels it first, nothing else that was pending fires, the order is that of (timeout, id), and
 the call ends. Order and termination need callbacks that add no timer which is already expired.
 */
module TimerProcess {
  import opened Words
  import opened TimerModel

  ghost function Expired(q: set<Entry>, now: uint64): set<Entry> {
    set e | e in q && e.timeout <= now
  }

  ghost predicate CancelledSince(log: seq<Event>, from: nat, id: uint32) {
    exists j :: from <= j < |log| && Cancels(log[j], id)
  }

  /** Re-arming leads past `now`: the sum fits 64 bits, or the clock plus the interval does. */
  predicate RearmOk(e: Entry, now: uint64) {
    e.interval == 0 || now < e.timeout + e.interval < TWO_64 || now + e.interval < TWO_64
  }

  /** A re-armed timer is due in the future exactly when the 64-bit sums do not wrap. */
  lemma RearmOkIff(e: Entry, now: uint64)
    requires e.timeout <= now && e.interval > 0
    ensures Rearm(e.timeout, e.interval, now) > now <==> RearmOk(e, now)
  {
    if now + e.interval >= TWO_64 {
      assert Wrap64(now + e.interval) == now + e.interval - TWO_64;
    }
    if e.timeout + e.interval >= TWO_64 {
      assert Wrap64(e.timeout + e.interval) == e.timeout + e.interval - TWO_64;
    }
  }

  // ----- The requests of a callback

  predicate Asked(e: Entry, rs: seq<Request>) {
    Add(e.timeout, e.interval, e.cb) in rs
  }

  /** What becomes of the pending timers: kept, or dropped by a cancellation in the log; new ones have new ids and were asked for. */
  ghost predicate Follows(s: State, t: State, rs: seq<Request>) {
    && Numbered(t) && s.lastId <= t.lastId && s.log <= t.log
    && (forall e :: e in s.queue ==> e in t.queue || CancelledSince(t.log, |s.log|, e.id))
    && (forall e :: e in t.queue ==> e in s.queue || (e.id > s.lastId && Asked(e, rs)))
  }

  lemma OneRequest(s: State, r: Request)
    requires Numbered(s) && Created(Apply(s, r).log) < TWO_32
    ensures Follows(s, Apply(s, r), [r])
  {
    var t := Apply(s, r);
    CountLast(s.log, t.log[|s.log|], 0);
    forall e | e in s.queue && e !in t.queue
      ensures CancelledSince(t.log, |s.log|, e.id)
    {
      assert Cancels(t.log[|s.log|], e.id);
    }
  }

  lemma CancelledLater(log: seq<Event>, longer: seq<Event>, from: nat, earlier: nat, id: uint32)
    requires CancelledSince(log, from, id) && log <= longer && earlier <= from
    ensures CancelledSince(longer, earlier, id)
  {
    var j :| from <= j < |log| && Cancels(log[j], id);
    assert Cancels(longer[j], id);
  }

  lemma FollowsTrans(s: State, t: State, u: State, r: Request, rs: seq<Request>)
    requires Follows(s, t, [r]) && Follows(t, u, rs)
    ensures Follows(s, u, [r] + rs)
  {
    forall e | e in s.queue && e !in u.queue
      ensures CancelledSince(u.log, |s.log|, e.id)
    {
      if e in t.queue {
        CancelledLater(u.log, u.log, |t.log|, |s.log|, e.id);
      } else {
        CancelledLater(t.log, u.log, |s.log|, |s.log|, e.id);
      }
    }
  }

  lemma {:induction false} AllRequests(s: State, rs: seq<Request>)
    requires Numbered(s) && Created(ApplyAll(s, rs).log) < TWO_32
    ensures Follows(s, ApplyAll(s, rs), rs)
    decreases |rs|
  {
    if rs != [] {
      var t := Apply(s, rs[0]);
      ApplyAllGrows(t, rs[1..]);
      OneRequest(s, rs[0]);
      AllRequests(t, rs[1..]);
      FollowsTrans(s, t, ApplyAll(s, rs), rs[0], rs[1..]);
      assert [rs[0]] + rs[1..] == rs;
    }
  }

  // ----- The firings of a call

  /** The timers a call fires, in order, each with the timeout it had. */
  ghost function Firing(s: State, now: uint64, host: Host, fuel: nat): seq<Entry>
    decreases fuel
  {
    if NothingExpired(s, now) || fuel == 0 then []
    else [Earliest(s.queue)] + Firing(FireNext(s, now, host), now, host, fuel - 1)
  }

  function FiredIn(log: seq<Event>): seq<Entry> {
    if log == [] then []
    else
      var last := log[|log| - 1];
      FiredIn(log[..|log| - 1]) + if last.Fired? then [last.entry] else []
  }

  lemma FiredLast(log: seq<Event>, ev: Event)
    ensures FiredIn(log + [ev]) == FiredIn(log) + if ev.Fired? then [ev.entry] else []
  {
    assert (log + [ev])[..|log|] == log;
  }

  lemma {:induction false} RequestsFireNothing(s: State, rs: seq<Request>)
    ensures FiredIn(ApplyAll(s, rs).log) == FiredIn(s.log)
    decreases |rs|
  {
    if rs != [] {
      var t := Apply(s, rs[0]);
      FiredLast(s.log, t.log[|s.log|]);
      RequestsFireNothing(t, rs[1..]);
    }
  }

  lemma NextIsLogged(s: State, now: uint64, host: Host)
    requires !NothingExpired(s, now)
    ensures FiredIn(FireNext(s, now, host).log) == FiredIn(s.log) + [Earliest(s.queue)]
  {
    hide ApplyAll, FiredIn;
    var fired := Fire(s, Earliest(s.queue), now);
    FiredLast(s.log, Fired(Earliest(s.queue), now));
    RequestsFireNothing(fired, host(fired.log));
  }

  /** The log of a call shows exactly these firings. */
  lemma {:induction false} FiringIsLogged(s: State, now: uint64, host: Host, fuel: nat)
    ensures FiredIn(Process(s, now, host, fuel).0.log) == FiredIn(s.log) + Firing(s, now, host, fuel)
    decreases fuel
  {
    hide FireNext, FiredIn;
    if !NothingExpired(s, now) && fuel > 0 {
      NextIsLogged(s, now, host);
      FiringIsLogged(FireNext(s, now, host), now, host, fuel - 1);
    }
  }

  /** What the state `t` after one firing of `e` owes to the state before. */
  ghost predicate AfterFiring(s: State, e: Entry, now: uint64, host: Host, t: State) {
    && Numbered(t) && s.lastId <= t.lastId && s.log <= t.log
    && (forall f :: f in s.queue && f != e ==> f in t.queue || CancelledSince(t.log, |s.log|, f.id))
    && (forall f :: f in t.queue ==>
          || (f in s.queue && f != e)
          || (f.id > s.lastId && Asked(f, host(s.log + [Fired(e, now)])))
          || (e.interval > 0 && f == e.(timeout := Rearm(e.timeout, e.interval, now))))
  }

  lemma OneFiring(s: State, now: uint64, host: Host)
    requires Numbered(s) && !NothingExpired(s, now) && Created(FireNext(s, now, host).log) < TWO_32
    ensures AfterFiring(s, Earliest(s.queue), now, host, FireNext(s, now, host))
  {
    hide Rearm, ApplyAll, Created, Asked, CancelledSince;
    var e := Earliest(s.queue);
    var fired := Fire(s, e, now);
    var t := FireNext(s, now, host);
    CountLast(s.log, Fired(e, now), 0);
    AllRequests(fired, host(fired.log));
    forall f | f in s.queue && f != e && f !in t.queue
      ensures CancelledSince(t.log, |s.log|, f.id)
    {
      assert f in fired.queue;
      CancelledLater(t.log, t.log, |fired.log|, |s.log|, f.id);
    }
  }

  /** The tail of a call after its first firing. */
  lemma Unfold(s: State, now: uint64, host: Host, fuel: nat) returns (e: Entry, t: State)
    requires Numbered(s) && Created(Process(s, now, host, fuel).0.log) < TWO_32
    requires !NothingExpired(s, now) && fuel > 0
    ensures e in s.queue && e.timeout <= now && (forall f :: f in s.queue ==> !Before(f, e))
    ensures e == Earliest(s.queue) && t == FireNext(s, now, host) && AfterFiring(s, e, now, host, t)
    ensures Process(s, now, host, fuel) == Process(t, now, host, fuel - 1)
    ensures Firing(s, now, host, fuel) == [e] + Firing(t, now, host, fuel - 1)
    ensures t.log <= Process(t, now, host, fuel - 1).0.log
  {
    e, t := Earliest(s.queue), FireNext(s, now, host);
    ProcessGrows(t, now, host, fuel - 1);
    OneFiring(s, now, host);
  }

  /** Once no entry of `id` is expired, the rest of the call does not fire it. */
  lemma {:induction false} NotAgain(s: State, now: uint64, host: Host, fuel: nat, id: uint32)
    requires Numbered(s) && Created(Process(s, now, host, fuel).0.log) < TWO_32
    requires id <= s.lastId
    requires forall f :: f in s.queue && f.id == id ==> f.timeout > now
    ensures forall f :: f in Firing(s, now, host, fuel) ==> f.id != id
    decreases fuel
  {
    hide ApplyAll;
    if !NothingExpired(s, now) && fuel > 0 {
      var e, t := Unfold(s, now, host, fuel);
      NotAgain(t, now, host, fuel - 1, id);
    }
  }

  /** How often timer `id` is among `fired`. */
  function Times(fired: seq<Entry>, id: uint32): nat {
    if fired == [] then 0 else (if fired[0].id == id then 1 else 0) + Times(fired[1..], id)
  }

  lemma {:induction false} NotAmong(fired: seq<Entry>, id: uint32)
    requires forall f :: f in fired ==> f.id != id
    ensures Times(fired, id) == 0
    decreases |fired|
  {
    if fired != [] {
      NotAmong(fired[1..], id);
    }
  }

  /**
   Whatever the callbacks do, every timer that is expired when the call starts fires exactly once,
   at the timeout it had, unless it is cancelled before; then it does not fire.
   */
  lemma {:induction false} EachExpiredOnce(s: State, now: uint64, host: Host, fuel: nat, e: Entry)
    requires Numbered(s) && Created(Process(s, now, host, fuel).0.log) < TWO_32
    requires Process(s, now, host, fuel).1
    requires e in s.queue && e.timeout <= now && RearmOk(e, now)
    ensures var fired := Firing(s, now, host, fuel);
            || (Times(fired, e.id) == 1 && e in fired)
            || (Times(fired, e.id) == 0 && CancelledSince(Process(s, now, host, fuel).0.log, |s.log|, e.id))
    decreases fuel
  {
    hide FireNext, Rearm, Asked;
    assert !NothingExpired(s, now) by {
      assert !Before(e, Earliest(s.queue));
    }
    var first, t := Unfold(s, now, host, fuel);
    var rest := Firing(t, now, host, fuel - 1);
    assert ([first] + rest)[1..] == rest;
    if first != e && e in t.queue {
      EachExpiredOnce(t, now, host, fuel - 1, e);
      if Times(rest, e.id) == 0 {
        CancelledLater(Process(t, now, host, fuel - 1).0.log, Process(t, now, host, fuel - 1).0.log, |t.log|, |s.log|, e.id);
      }
    } else {
      if first == e && e.interval > 0 {
        RearmOkIff(e, now);
      }
      NotAgain(t, now, host, fuel - 1, e.id);
      NotAmong(rest, e.id);
      if first != e {
        CancelledLater(t.log, Process(t, now, host, fuel - 1).0.log, |s.log|, |s.log|, e.id);
      }
    }
  }

  /** When the call ends by itself, nothing expired is left and the value it returns is the least timeout left. */
  lemma {:induction false} NothingLeft(s: State, now: uint64, host: Host, fuel: nat)
    requires Process(s, now, host, fuel).1
    ensures var t := Process(s, now, host, fuel).0;
            && Expired(t.queue, now) == {}
            && (t.queue == {} <==> NextTimeout(t) == 0)
            && (t.queue != {} ==> now < NextTimeout(t) && exists e :: e in t.queue && e.timeout == NextTimeout(t))
            && (forall e :: e in t.queue ==> NextTimeout(t) <= e.timeout)
    decreases fuel
  {
    if NothingExpired(s, now) {
      if s.queue != {} {
        assert Earliest(s.queue) in s.queue;
        assert forall e :: e in s.queue ==> !Before(e, Earliest(s.queue));
      }
    } else {
      NothingLeft(FireNext(s, now, host), now, host, fuel - 1);
    }
  }

  // ----- Callbacks that add no expired timer

  predicate NoneExpired(rs: seq<Request>, now: uint64) {
    forall r :: r in rs && r.Add? ==> r.timeout > now
  }

  /** The callbacks that this call runs add no timer that is already expired. */
  ghost predicate Polite(s: State, now: uint64, host: Host, fuel: nat)
    decreases fuel
  {
    NothingExpired(s, now) || fuel == 0
    || (NoneExpired(host(s.log + [Fired(Earliest(s.queue), now)]), now) && Polite(FireNext(s, now, host), now, host, fuel - 1))
  }

  ghost predicate AllRearmOk(q: set<Entry>, now: uint64) {
    forall e :: e in q && e.timeout <= now ==> RearmOk(e, now)
  }

  /** One firing takes an expired timer away and brings no other. */
  lemma ExpiredShrinks(s: State, e: Entry, now: uint64, host: Host, t: State)
    requires e in s.queue && e.timeout <= now && AfterFiring(s, e, now, host, t)
    requires NoneExpired(host(s.log + [Fired(e, now)]), now) && AllRearmOk(s.queue, now)
    ensures Expired(t.queue, now) <= Expired(s.queue, now) - {e}
    ensures AllRearmOk(t.queue, now)
  {
    if e.interval > 0 {
      RearmOkIff(e, now);
    }
    forall f | f in t.queue && f.timeout <= now
      ensures f in s.queue && f != e
    {
    }
  }

  ghost predicate Ordered(fired: seq<Entry>) {
    forall j, k :: 0 <= j < k < |fired| ==>
      fired[j].timeout < fired[k].timeout || (fired[j].timeout == fired[k].timeout && fired[j].id < fired[k].id)
  }

  lemma NoneOrdered()
    ensures Ordered([])
  {
  }

  lemma OrderedCons(e: Entry, rest: seq<Entry>)
    requires Ordered(rest) && forall f :: f in rest ==> Before(e, f)
    ensures Ordered([e] + rest)
  {
    var all := [e] + rest;
    forall j, k | 0 <= j < k < |all|
      ensures all[j].timeout < all[k].timeout || (all[j].timeout == all[k].timeout && all[j].id < all[k].id)
    {
      assert all[k] == rest[k - 1] && rest[k - 1] in rest;
      assert j > 0 ==> all[j] == rest[j - 1];
    }
  }

  /** Only timers that were expired at the start fire, in strictly increasing (timeout, id) order. */
  lemma {:induction false} FiringOrder(s: State, now: uint64, host: Host, fuel: nat)
    requires Numbered(s) && Created(Process(s, now, host, fuel).0.log) < TWO_32
    requires Polite(s, now, host, fuel) && AllRearmOk(s.queue, now)
    ensures forall f :: f in Firing(s, now, host, fuel) ==> f in Expired(s.queue, now)
    ensures Ordered(Firing(s, now, host, fuel))
    decreases fuel
  {
    hide ApplyAll, Ordered;
    if NothingExpired(s, now) || fuel == 0 {
      NoneOrdered();
    } else {
      var e, t := Unfold(s, now, host, fuel);
      ExpiredShrinks(s, e, now, host, t);
      hide AfterFiring;
      FiringOrder(t, now, host, fuel - 1);
      var rest := Firing(t, now, host, fuel - 1);
      forall f | f in rest
        ensures Before(e, f)
      {
        assert f in Expired(s.queue, now) - {e};
        assert !Before(f, e) && f.id != e.id;
      }
      OrderedCons(e, rest);
    }
  }

  /** The call ends after at most as many firings as there are expired timers. */
  lemma {:induction false} Terminates(s: State, now: uint64, host: Host, fuel: nat)
    requires Numbered(s) && Created(Process(s, now, host, fuel).0.log) < TWO_32
    requires Polite(s, now, host, fuel) && AllRearmOk(s.queue, now)
    requires fuel >= |Expired(s.queue, now)|
    ensures Process(s, now, host, fuel).1
    decreases fuel
  {
    hide ApplyAll, FireNext, AfterFiring, Numbered;
    if !NothingExpired(s, now) {
      assert Earliest(s.queue) in Expired(s.queue, now);
      if fuel > 0 {
        var e, t := Unfold(s, now, host, fuel);
        ExpiredShrinks(s, e, now, host, t);
        SubsetSize(Expired(t.queue, now), Expired(s.queue, now) - {e});
        assert |Expired(s.queue, now) - {e}| == |Expired(s.queue, now)| - 1;
        Terminates(t, now, host, fuel - 1);
      }
    }
  }

  lemma {:induction false} SubsetSize<T>(a: set<T>, b: set<T>)
    requires a <= b
    ensures |a| <= |b|
    decreases |a|
  {
    if a != {} {
      var x :| x in a;
      SubsetSize(a - {x}, b - {x});
    }
  }

  // ----- Where the promises end

  /** A callback that adds an immediate timer whenever it runs keeps the call going for ever. */
  lemma {:induction false} ImmediateTimersNeverEnd(s: State, now: uint64, cb: nat, fuel: nat)
    requires !NothingExpired(s, now)
    ensures !Process(s, now, _ => [Add(0, 0, cb)], fuel).1
    decreases fuel
  {
    if fuel > 0 {
      var host: Host := _ => [Add(0, 0, cb)];
      var fired := Fire(s, Earliest(s.queue), now);
      var t := FireNext(s, now, host);
      assert ApplyAll(AddTimer(fired, 0, 0, cb), []) == AddTimer(fired, 0, 0, cb);
      assert [Add(0, 0, cb)][1..] == [];
      assert t == AddTimer(fired, 0, 0, cb);
      assert Entry(Wrap32(fired.lastId + 1), 0, 0, cb) in t.queue;
      ImmediateTimersNeverEnd(t, now, cb, fuel - 1);
    }
  }

  /** The state of a call after `k` firings, or at its end if that comes first. */
  ghost function After(s: State, now: uint64, host: Host, k: nat): State
    decreases k
  {
    if NothingExpired(s, now) || k == 0 then s else After(FireNext(s, now, host), now, host, k - 1)
  }

  /** Callbacks that are not polite add an expired timer in one of the firings of this call. */
  lemma {:induction false} NotPolite(s: State, now: uint64, host: Host, fuel: nat) returns (k: nat, r: Request)
    requires !Polite(s, now, host, fuel)
    ensures var u := After(s, now, host, k);
            && k < fuel && !NothingExpired(u, now)
            && r in host(u.log + [Fired(Earliest(u.queue), now)]) && r.Add? && r.timeout <= now
    decreases fuel
  {
    var requests := host(s.log + [Fired(Earliest(s.queue), now)]);
    if NoneExpired(requests, now) {
      k, r := NotPolite(FireNext(s, now, host), now, host, fuel - 1);
      k := k + 1;
    } else {
      k := 0;
      r :| r in requests && r.Add? && r.timeout <= now;
    }
  }

  lemma FiresFirst(s: State, now: uint64, host: Host, k: nat)
    requires !NothingExpired(s, now) && k > 0
    ensures Firing(s, now, host, k) == [Earliest(s.queue)] + Firing(FireNext(s, now, host), now, host, k - 1)
  {
    hide FireNext;
  }

  lemma GoesOnHere(s: State, now: uint64, host: Host, fuel: nat, k: nat)
    requires (NothingExpired(s, now) || k == 0) && k <= fuel
    ensures Process(s, now, host, fuel - k) == Process(s, now, host, fuel)
    ensures Firing(s, now, host, fuel) == Firing(s, now, host, k) + Firing(s, now, host, fuel - k)
  {
    hide FireNext;
  }

  lemma LaterAfterFiring(s: State, e: Entry, now: uint64, host: Host, t: State)
    requires AfterFiring(s, e, now, host, t)
    ensures Numbered(t) && s.lastId <= t.lastId && s.log <= t.log
  {
    hide Numbered;
  }

  /** From there the call goes on as one that starts there. */
  lemma {:induction false} GoesOn(s: State, now: uint64, host: Host, fuel: nat, k: nat)
    requires Numbered(s) && Created(Process(s, now, host, fuel).0.log) < TWO_32 && k <= fuel
    ensures var u := After(s, now, host, k);
            && Numbered(u) && s.log <= u.log && s.lastId <= u.lastId
            && Process(u, now, host, fuel - k) == Process(s, now, host, fuel)
            && Firing(s, now, host, fuel) == Firing(s, now, host, k) + Firing(u, now, host, fuel - k)
    decreases k
  {
    hide FireNext, AfterFiring, Numbered, Process, Firing;
    if NothingExpired(s, now) || k == 0 {
      GoesOnHere(s, now, host, fuel, k);
    } else {
      var e, t := Unfold(s, now, host, fuel);
      LaterAfterFiring(s, e, now, host, t);
      GoesOn(t, now, host, fuel - 1, k - 1);
      FiresFirst(s, now, host, k);
    }
  }

  /**
   An expired timer that a callback adds fires in the same call, which ends by itself, unless it is
   cancelled afterwards. So then not only the timers that were expired at the start fire.
   */
  lemma AddedExpiredFires(s: State, now: uint64, host: Host, fuel: nat, k: nat, e: Entry)
    requires Numbered(s) && Created(Process(s, now, host, fuel).0.log) < TWO_32 && k <= fuel
    requires Process(s, now, host, fuel).1
    requires e in After(s, now, host, k).queue && e.timeout <= now && RearmOk(e, now)
    ensures e in Firing(s, now, host, fuel)
            || CancelledSince(Process(s, now, host, fuel).0.log, |After(s, now, host, k).log|, e.id)
    ensures e.id > s.lastId ==> e !in Expired(s.queue, now)
  {
    hide After, Firing, Process, CancelledSince, RearmOk;
    GoesOn(s, now, host, fuel, k);
    EachExpiredOnce(After(s, now, host, k), now, host, fuel - k, e);
  }

  /**
   What firing leaves of a timer: nothing when it has no interval, and else the timer itself, an
   interval after it was due if that is still to come and fits the clock, and otherwise an interval
   from now on the 64-bit clock.
   */
  lemma PendingAgain(s: State, e: Entry, now: uint64, f: Entry)
    requires Numbered(s) && e in s.queue && e.timeout <= now
    ensures f in Fire(s, e, now).queue && f.id == e.id <==>
            e.interval > 0 && f == Entry(e.id, f.timeout, e.interval, e.cb)
            && f.timeout == if now < e.timeout + e.interval < TWO_64 then e.timeout + e.interval
                            else (now + e.interval) % 0x1_0000_0000_0000_0000
    ensures f.id != e.id ==> (f in Fire(s, e, now).queue <==> f in s.queue)
  {
  }

  /** And so `process_timers` returns the time at which a lone cyclic timer is due again. */
  lemma LoneTimerReturns(s: State, now: uint64, e: Entry, fuel: nat)
    requires s.queue == {e} && e.timeout <= now && e.interval > 0 && fuel > 0
    ensures var (t, done) := Process(s, now, _ => [], fuel);
            && (now < e.timeout + e.interval < TWO_64 ==>
                  done && NextTimeout(t) == e.timeout + e.interval && |t.log| == |s.log| + 1)
            && (e.timeout + e.interval <= now && now + e.interval < TWO_64 ==>
                  done && NextTimeout(t) == now + e.interval && |t.log| == |s.log| + 1)
  {
    var host: Host := _ => [];
    assert Earliest(s.queue) == e;
    var t := FireNext(s, now, host);
    var rearmed := e.(timeout := Rearm(e.timeout, e.interval, now));
    assert t.queue == {rearmed};
    assert Earliest(t.queue) == rearmed;
    assert Process(s, now, host, fuel) == Process(t, now, host, fuel - 1);
  }

  /** A lone expired cyclic timer whose callback asks nothing fires once and no more exactly when its re-arming does not wrap. */
  lemma OneFiringIffNoWrap(s: State, now: uint64, e: Entry)
    requires s.queue == {e} && e.timeout <= now && e.interval > 0
    ensures Process(s, now, _ => [], 1).1 <==> RearmOk(e, now)
  {
    var host: Host := _ => [];
    assert Earliest(s.queue) == e;
    var t := FireNext(s, now, host);
    var rearmed := e.(timeout := Rearm(e.timeout, e.interval, now));
    assert t.queue == {rearmed};
    assert Earliest(t.queue) == rearmed;
    assert Process(s, now, host, 1) == Process(t, now, host, 0);
    RearmOkIff(e, now);
  }
}
