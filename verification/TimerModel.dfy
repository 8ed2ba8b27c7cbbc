/**
 The timer scheduler of core/timermanager.cpp on values: what is pending, what each request does
 to it, and what one call of `process_timers` does, together with the log of everything that
 happened. A callback is whatever the host answers when shown the log that ends in its firing.
 */
module TimerModel {
  import opened Words
  import opened TimerQueue

  datatype Entry = Entry(id: uint32, timeout: uint64, interval: uint64, cb: TimerCb)

  datatype Event =
    | Added(entry: Entry)
    | Cancelled(id: uint32)
    | Cleared
    | Fired(entry: Entry, now: uint64)

  /** What a callback may ask of the manager. */
  datatype Request = Add(timeout: uint64, interval: uint64, cb: TimerCb) | Cancel(id: uint32) | CancelAll

  datatype State = State(queue: set<Entry>, lastId: uint32, log: seq<Event>)

  type Host = seq<Event> -> seq<Request>

  const INITIAL := State({}, 0, [])

  predicate Before(a: Entry, b: Entry) {
    a.timeout < b.timeout || (a.timeout == b.timeout && a.id < b.id)
  }

  ghost predicate IsEarliest(q: set<Entry>, e: Entry) {
    e in q && forall f :: f in q ==> !Before(f, e)
  }

  lemma {:induction false} EarliestExists(q: set<Entry>)
    requires q != {}
    ensures exists e :: IsEarliest(q, e)
    decreases |q|
  {
    var x :| x in q;
    if q == {x} {
      assert IsEarliest(q, x);
    } else {
      EarliestExists(q - {x});
      var y :| IsEarliest(q - {x}, y);
      var e := if Before(x, y) then x else y;
      assert forall f :: f in q ==> f == x || f in q - {x};
      assert IsEarliest(q, e);
    }
  }

  ghost function Earliest(q: set<Entry>): (e: Entry)
    requires q != {}
    ensures IsEarliest(q, e)
  {
    EarliestExists(q);
    var e :| IsEarliest(q, e);
    e
  }

  /** The re-armed timeout of a cyclic timer, in 64-bit arithmetic. */
  function Rearm(timeout: uint64, interval: uint64, now: uint64): uint64 {
    var next := Wrap64(timeout + interval);
    if next <= now then Wrap64(now + interval) else next
  }

  function AddTimer(s: State, timeout: uint64, interval: uint64, cb: TimerCb): State {
    var e := Entry(Wrap32(s.lastId + 1), timeout, interval, cb);
    State(s.queue + {e}, e.id, s.log + [Added(e)])
  }

  function CancelTimer(s: State, id: uint32): State {
    s.(queue := (set e | e in s.queue && e.id != id), log := s.log + [Cancelled(id)])
  }

  function CancelAllTimers(s: State): State {
    s.(queue := {}, log := s.log + [Cleared])
  }

  function Fire(s: State, e: Entry, now: uint64): State {
    var rest := s.queue - {e};
    var rearmed := if e.interval > 0 then {e.(timeout := Rearm(e.timeout, e.interval, now))} else {};
    s.(queue := rest + rearmed, log := s.log + [Fired(e, now)])
  }

  function Apply(s: State, r: Request): State {
    match r
    case Add(timeout, interval, cb) => AddTimer(s, timeout, interval, cb)
    case Cancel(id) => CancelTimer(s, id)
    case CancelAll => CancelAllTimers(s)
  }

  function ApplyAll(s: State, rs: seq<Request>): State
    decreases |rs|
  {
    if rs == [] then s else ApplyAll(Apply(s, rs[0]), rs[1..])
  }

  ghost predicate NothingExpired(s: State, now: uint64) {
    s.queue == {} || Earliest(s.queue).timeout > now
  }

  /** The state after the first expired timer has fired and its callback has returned. */
  ghost function FireNext(s: State, now: uint64, host: Host): State
    requires !NothingExpired(s, now)
  {
    var fired := Fire(s, Earliest(s.queue), now);
    ApplyAll(fired, host(fired.log))
  }

  /**
   `process_timers` at time `now`, cut off after `fuel` firings: the state it leaves and whether
   it returned by itself.
   */
  ghost function Process(s: State, now: uint64, host: Host, fuel: nat): (State, bool)
    decreases fuel
  {
    if NothingExpired(s, now) then (s, true)
    else if fuel == 0 then (s, false)
    else Process(FireNext(s, now, host), now, host, fuel - 1)
  }

  /** What `process_timers` returns in a state where nothing is expired. */
  ghost function NextTimeout(s: State): uint64 {
    if s.queue == {} then 0 else Earliest(s.queue).timeout
  }

  // ----- Counting over the log

  function Created(log: seq<Event>): nat {
    if log == [] then 0
    else Created(log[..|log| - 1]) + if log[|log| - 1].Added? then 1 else 0
  }

  predicate Fires(ev: Event, id: uint32) {
    ev.Fired? && ev.entry.id == id
  }

  predicate Cancels(ev: Event, id: uint32) {
    ev == Cancelled(id) || ev.Cleared?
  }

  function Firings(log: seq<Event>, id: uint32): nat {
    if log == [] then 0
    else Firings(log[..|log| - 1], id) + if Fires(log[|log| - 1], id) then 1 else 0
  }

  /** Counting one appended event. */
  lemma CountLast(log: seq<Event>, ev: Event, id: uint32)
    ensures Created(log + [ev]) == Created(log) + if ev.Added? then 1 else 0
    ensures Firings(log + [ev], id) == Firings(log, id) + if Fires(ev, id) then 1 else 0
  {
    assert (log + [ev])[..|log|] == log;
  }

  lemma {:induction false} NoFirings(log: seq<Event>, id: uint32)
    requires forall j :: 0 <= j < |log| ==> !Fires(log[j], id)
    ensures Firings(log, id) == 0
    decreases |log|
  {
    if log != [] {
      NoFirings(log[..|log| - 1], id);
    }
  }

  /** The pending timers carry different ids, all handed out; before 2^32 additions ids count them. */
  ghost predicate Numbered(s: State) {
    && s.lastId == Created(s.log)
    && (forall e, f :: e in s.queue && f in s.queue && e.id == f.id ==> e == f)
    && (forall e :: e in s.queue ==> e.id <= s.lastId)
  }

  // ----- The log only grows

  lemma {:induction false} ApplyAllGrows(s: State, rs: seq<Request>)
    ensures s.log <= ApplyAll(s, rs).log
    ensures Created(s.log) <= Created(ApplyAll(s, rs).log)
    decreases |rs|
  {
    if rs != [] {
      var s1 := Apply(s, rs[0]);
      CountLast(s.log, s1.log[|s.log|], 0);
      ApplyAllGrows(s1, rs[1..]);
    }
  }

  lemma FireNextGrows(s: State, now: uint64, host: Host)
    requires !NothingExpired(s, now)
    ensures var fired := Fire(s, Earliest(s.queue), now);
            s.log + [Fired(Earliest(s.queue), now)] <= FireNext(s, now, host).log
    ensures Created(s.log) <= Created(FireNext(s, now, host).log)
  {
    var fired := Fire(s, Earliest(s.queue), now);
    CountLast(s.log, Fired(Earliest(s.queue), now), 0);
    ApplyAllGrows(fired, host(fired.log));
  }

  lemma {:induction false} ProcessGrows(s: State, now: uint64, host: Host, fuel: nat)
    ensures s.log <= Process(s, now, host, fuel).0.log
    ensures Created(s.log) <= Created(Process(s, now, host, fuel).0.log)
    decreases fuel
  {
    if !NothingExpired(s, now) && fuel > 0 {
      FireNextGrows(s, now, host);
      ProcessGrows(FireNext(s, now, host), now, host, fuel - 1);
    }
  }
}
