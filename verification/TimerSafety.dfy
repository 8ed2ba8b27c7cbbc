/**
 What holds of the log of every run of the timer manager in which fewer than 2^32 timers are ever
 created: only armed timers fire, a cancelled timer stays silent, a one-shot timer fires at most
 once, and a cyclic timer never fires faster than its interval.
 */
module TimerSafety {
  import opened Words
  import opened TimerQueue
  import opened TimerModel

  /** No re-arming so far went past the 64-bit clock. */
  ghost predicate NoOverflow(log: seq<Event>) {
    forall j :: 0 <= j < |log| && log[j].Fired? ==> log[j].now + log[j].entry.interval < TWO_64
  }

  /**
   Why entry `e` may be pending after `log`: it was added at position `a` and not cancelled since;
   a one-shot timer has not fired yet, and a cyclic one has moved on by an interval per firing.
   */
  ghost predicate ArmedAt(log: seq<Event>, e: Entry, a: nat) {
    && a < |log| && log[a].Added?
    && var origin := log[a].entry;
    && origin.id == e.id && origin.interval == e.interval && origin.cb == e.cb
    && (forall j :: a < j < |log| ==> !Cancels(log[j], e.id))
    && (e.interval == 0 ==> e == origin && Firings(log, e.id) == 0)
    && (e.interval > 0 && NoOverflow(log) ==>
          e.timeout >= origin.timeout + Firings(log, e.id) * e.interval)
    && (Firings(log, e.id) == 0 ==> e == origin)
    && (forall i :: a < i < |log| && IsLast(log, i, e.id) ==> Next(log[i], e))
  }

  /** The event at `i` is the last firing of the timer. */
  ghost predicate IsLast(log: seq<Event>, i: nat, id: uint32)
    requires i < |log|
  {
    Fires(log[i], id) && forall j :: i < j < |log| ==> !Fires(log[j], id)
  }

  /**
   When the timer is due after it fired: an interval after it was due, if that is still to come and
   fits the clock, and else an interval from the time of the firing on the 64-bit clock.
   */
  ghost predicate Next(ev: Event, e: Entry) {
    ev.Fired?
    && var due, interval := ev.entry.timeout, ev.entry.interval;
    && e == ev.entry.(timeout := e.timeout)
    && (ev.now < due + interval < TWO_64 ==> e.timeout == due + interval)
    && (due + interval <= ev.now || due + interval >= TWO_64 ==> e.timeout == (ev.now + interval) % 0x1_0000_0000_0000_0000)
  }

  /** How re-arming continues the timer, in all cases. */
  lemma RearmIsNext(e: Entry, now: uint64)
    requires e.timeout <= now && e.interval > 0
    ensures Next(Fired(e, now), e.(timeout := Rearm(e.timeout, e.interval, now)))
  {
  }

  ghost predicate Armed(log: seq<Event>, e: Entry) {
    exists a :: ArmedAt(log, e, a)
  }

  /** The event at `j`, if a firing, is of an expired timer that was armed just before. */
  ghost predicate LegalAt(log: seq<Event>, j: nat)
    requires j < |log|
  {
    log[j].Fired? ==> log[j].entry.timeout <= log[j].now && Armed(log[..j], log[j].entry)
  }

  ghost predicate Legal(log: seq<Event>) {
    forall j {:trigger LegalAt(log, j)} :: 0 <= j < |log| ==> LegalAt(log, j)
  }

  ghost predicate InOrderAt(log: seq<Event>, i: nat, j: nat)
    requires i < j < |log|
  {
    log[i].Added? && log[j].Added? ==> log[i].entry.id < log[j].entry.id
  }

  /** Ids are handed out in increasing order and none is used before it is handed out. */
  ghost predicate IdsInOrder(log: seq<Event>, lastId: uint32) {
    && (forall j :: 0 <= j < |log| && (log[j].Added? || log[j].Fired?) ==> log[j].entry.id <= lastId)
    && (forall i, j {:trigger InOrderAt(log, i, j)} :: 0 <= i < j < |log| ==> InOrderAt(log, i, j))
  }

  ghost predicate IdsOk(s: State) {
    Numbered(s) && IdsInOrder(s.log, s.lastId)
  }

  ghost predicate AllArmed(log: seq<Event>, q: set<Entry>) {
    forall e {:trigger Armed(log, e)} :: e in q ==> Armed(log, e)
  }

  ghost predicate Inv(s: State) {
    IdsOk(s) && AllArmed(s.log, s.queue) && Legal(s.log)
  }

  // ----- Every step keeps the invariant

  lemma LegalExtends(log: seq<Event>, ev: Event)
    requires Legal(log)
    requires ev.Fired? ==> ev.entry.timeout <= ev.now && Armed(log, ev.entry)
    ensures Legal(log + [ev])
  {
    var longer := log + [ev];
    forall j | 0 <= j < |longer|
      ensures LegalAt(longer, j)
    {
      if j < |log| {
        assert LegalAt(log, j);
        assert longer[..j] == log[..j];
      } else {
        assert longer[..j] == log;
      }
    }
  }

  lemma ArmedRate(log: seq<Event>, e: Entry, a: nat)
    requires ArmedAt(log, e, a) && e.interval > 0 && NoOverflow(log)
    ensures e.timeout >= log[a].entry.timeout + Firings(log, e.id) * e.interval && e.interval == log[a].entry.interval
  {
  }

  lemma ArmedNext(log: seq<Event>, e: Entry, a: nat, i: nat)
    requires ArmedAt(log, e, a) && a < i < |log| && IsLast(log, i, e.id)
    ensures Next(log[i], e)
  {
  }

  /** A timer stays armed through any event that is not its own firing or cancellation. */
  lemma ArmedExtends(log: seq<Event>, ev: Event, e: Entry)
    requires Armed(log, e)
    requires !Cancels(ev, e.id) && !Fires(ev, e.id)
    ensures Armed(log + [ev], e)
  {
    var a: nat :| ArmedAt(log, e, a);
    CountLast(log, ev, e.id);
    var longer := log + [ev];
    assert forall j :: 0 <= j < |log| ==> longer[j] == log[j];
    assert NoOverflow(longer) ==> NoOverflow(log);
    assert ArmedAt(longer, e, a);
  }

  lemma AllStayArmed(log: seq<Event>, ev: Event, q: set<Entry>)
    requires AllArmed(log, q)
    requires forall e :: e in q ==> !Cancels(ev, e.id) && !Fires(ev, e.id)
    ensures AllArmed(log + [ev], q)
  {
    forall e | e in q
      ensures Armed(log + [ev], e)
    {
      ArmedExtends(log, ev, e);
    }
  }

  lemma IdsStayInOrder(log: seq<Event>, lastId: uint32, ev: Event)
    requires IdsInOrder(log, lastId)
    requires ev.Fired? ==> ev.entry.id <= lastId
    requires ev.Added? ==> ev.entry.id == lastId + 1
    ensures IdsInOrder(log + [ev], if ev.Added? then ev.entry.id else lastId)
  {
    var longer := log + [ev];
    forall i, j | 0 <= i < j < |longer|
      ensures InOrderAt(longer, i, j)
    {
      if j < |log| {
        assert InOrderAt(log, i, j);
      }
    }
  }

  lemma NewTimerArmed(log: seq<Event>, lastId: uint32, e: Entry)
    requires IdsInOrder(log, lastId) && e.id == lastId + 1
    ensures Armed(log + [Added(e)], e)
  {
    NoFirings(log, e.id);
    CountLast(log, Added(e), e.id);
    assert ArmedAt(log + [Added(e)], e, |log|);
  }

  lemma AddKeeps(s: State, timeout: uint64, interval: uint64, cb: TimerCb)
    requires Inv(s) && Created(s.log) + 1 < TWO_32
    ensures Inv(AddTimer(s, timeout, interval, cb))
  {
    hide Created, Legal, IdsInOrder, Armed;
    var e := Entry(s.lastId + 1, timeout, interval, cb);
    var t := State(s.queue + {e}, e.id, s.log + [Added(e)]);
    assert AddTimer(s, timeout, interval, cb) == t;
    assert IdsOk(t) by {
      IdsStayInOrder(s.log, s.lastId, Added(e));
      CountLast(s.log, Added(e), e.id);
    }
    assert AllArmed(t.log, t.queue) by {
      AllStayArmed(s.log, Added(e), s.queue);
      NewTimerArmed(s.log, s.lastId, e);
    }
    LegalExtends(s.log, Added(e));
  }

  lemma CancelKeeps(s: State, id: uint32)
    requires Inv(s)
    ensures Inv(CancelTimer(s, id))
  {
    hide Created, Legal, IdsInOrder, Armed;
    LegalExtends(s.log, Cancelled(id));
    IdsStayInOrder(s.log, s.lastId, Cancelled(id));
    CountLast(s.log, Cancelled(id), id);
    AllStayArmed(s.log, Cancelled(id), CancelTimer(s, id).queue);
  }

  lemma CancelAllKeeps(s: State)
    requires Inv(s)
    ensures Inv(CancelAllTimers(s))
  {
    hide Created, Legal, IdsInOrder, Armed;
    CountLast(s.log, Cleared, 0);
    LegalExtends(s.log, Cleared);
    IdsStayInOrder(s.log, s.lastId, Cleared);
  }

  /** Without overflow a re-armed timer is due in the future, within one interval, and no sooner than one interval after it was due. */
  lemma RearmBounds(timeout: uint64, interval: uint64, now: uint64)
    requires timeout <= now && interval > 0 && now + interval < TWO_64
    ensures now < Rearm(timeout, interval, now) <= now + interval
    ensures Rearm(timeout, interval, now) >= timeout + interval
  {
  }

  /** After one more firing the re-armed timer is one more interval on. */
  lemma RearmMovesOn(log: seq<Event>, e: Entry, origin: uint64, now: uint64)
    requires e.timeout <= now && e.interval > 0 && now + e.interval < TWO_64
    requires e.timeout >= origin + Firings(log, e.id) * e.interval
    ensures Rearm(e.timeout, e.interval, now) >= origin + Firings(log + [Fired(e, now)], e.id) * e.interval
  {
    RearmBounds(e.timeout, e.interval, now);
    CountLast(log, Fired(e, now), e.id);
    var n := Firings(log, e.id);
    assert (n + 1) * e.interval == n * e.interval + e.interval;
  }

  lemma NewIsLast(log: seq<Event>, e: Entry, now: uint64, i: nat)
    requires i <= |log| && IsLast(log + [Fired(e, now)], i, e.id)
    ensures i == |log|
  {
    assert (log + [Fired(e, now)])[|log|] == Fired(e, now);
  }

  lemma RearmedStaysArmed(log: seq<Event>, e: Entry, now: uint64)
    requires Armed(log, e) && e.timeout <= now && e.interval > 0
    ensures Armed(log + [Fired(e, now)], e.(timeout := Rearm(e.timeout, e.interval, now)))
  {
    hide Rearm, Next, IsLast;
    var a: nat :| ArmedAt(log, e, a);
    var longer := log + [Fired(e, now)];
    assert forall j :: 0 <= j < |log| ==> longer[j] == log[j];
    if NoOverflow(longer) {
      assert longer[|log|] == Fired(e, now);
      assert NoOverflow(log);
      RearmMovesOn(log, e, log[a].entry.timeout, now);
    }
    CountLast(log, Fired(e, now), e.id);
    RearmIsNext(e, now);
    forall i | a < i < |longer| && IsLast(longer, i, e.id)
      ensures i == |log|
    {
      NewIsLast(log, e, now, i);
    }
    assert ArmedAt(longer, e.(timeout := Rearm(e.timeout, e.interval, now)), a);
  }

  lemma FireKeeps(s: State, e: Entry, now: uint64)
    requires Inv(s) && e in s.queue && e.timeout <= now
    ensures Inv(Fire(s, e, now))
  {
    hide Created, Legal, IdsInOrder, Armed;
    LegalExtends(s.log, Fired(e, now));
    IdsStayInOrder(s.log, s.lastId, Fired(e, now));
    CountLast(s.log, Fired(e, now), e.id);
    AllStayArmed(s.log, Fired(e, now), s.queue - {e});
    if e.interval > 0 {
      RearmedStaysArmed(s.log, e, now);
    }
  }

  lemma {:induction false} ApplyAllKeeps(s: State, rs: seq<Request>)
    requires Inv(s) && Created(ApplyAll(s, rs).log) < TWO_32
    ensures Inv(ApplyAll(s, rs))
    decreases |rs|
  {
    hide Inv, Created;
    if rs != [] {
      var s1 := Apply(s, rs[0]);
      ApplyAllGrows(s1, rs[1..]);
      CountLast(s.log, s1.log[|s.log|], 0);
      match rs[0] {
        case Add(timeout, interval, cb) => AddKeeps(s, timeout, interval, cb);
        case Cancel(id) => CancelKeeps(s, id);
        case CancelAll => CancelAllKeeps(s);
      }
      ApplyAllKeeps(s1, rs[1..]);
    }
  }

  lemma FireNextKeeps(s: State, now: uint64, host: Host)
    requires Inv(s) && !NothingExpired(s, now) && Created(FireNext(s, now, host).log) < TWO_32
    ensures Inv(FireNext(s, now, host))
  {
    hide Inv, Created;
    var fired := Fire(s, Earliest(s.queue), now);
    FireKeeps(s, Earliest(s.queue), now);
    ApplyAllKeeps(fired, host(fired.log));
  }

  lemma {:induction false} ProcessKeeps(s: State, now: uint64, host: Host, fuel: nat)
    requires Inv(s) && Created(Process(s, now, host, fuel).0.log) < TWO_32
    ensures Inv(Process(s, now, host, fuel).0)
    decreases fuel
  {
    hide Inv, Created;
    if !NothingExpired(s, now) && fuel > 0 {
      ProcessGrows(FireNext(s, now, host), now, host, fuel - 1);
      FireNextKeeps(s, now, host);
      ProcessKeeps(FireNext(s, now, host), now, host, fuel - 1);
    }
  }

  // ----- Runs

  /** A call from outside the callbacks. */
  datatype Call = Outside(request: Request) | Tick(now: uint64, fuel: nat)

  ghost function Run(calls: seq<Call>, host: Host): State
    decreases |calls|
  {
    if calls == [] then INITIAL
    else
      var s := Run(calls[..|calls| - 1], host);
      match calls[|calls| - 1]
      case Outside(r) => Apply(s, r)
      case Tick(now, fuel) => Process(s, now, host, fuel).0
  }

  lemma {:induction false} RunKeeps(calls: seq<Call>, host: Host)
    requires Created(Run(calls, host).log) < TWO_32
    ensures Inv(Run(calls, host))
    decreases |calls|
  {
    if calls != [] {
      var s := Run(calls[..|calls| - 1], host);
      match calls[|calls| - 1] {
        case Outside(r) =>
          assert ApplyAll(s, [r]) == Apply(s, r);
          ApplyAllGrows(s, [r]);
          RunKeeps(calls[..|calls| - 1], host);
          ApplyAllKeeps(s, [r]);
        case Tick(now, fuel) =>
          ProcessGrows(s, now, host, fuel);
          RunKeeps(calls[..|calls| - 1], host);
          ProcessKeeps(s, now, host, fuel);
      }
    }
  }

  // ----- What the log of a run says

  /** The position of the last firing of `id`. */
  lemma {:induction false} LastFiring(log: seq<Event>, id: uint32) returns (j: nat)
    requires Firings(log, id) > 0
    ensures j < |log| && Fires(log[j], id) && Firings(log[..j], id) == Firings(log, id) - 1
    ensures forall k :: j < k < |log| ==> !Fires(log[k], id)
    decreases |log|
  {
    var rest := log[..|log| - 1];
    if Fires(log[|log| - 1], id) {
      j := |log| - 1;
    } else {
      j := LastFiring(rest, id);
      assert rest[..j] == log[..j];
    }
  }

  /** Where the timer fired at `j` comes from: the one event that added its id. */
  lemma Origin(calls: seq<Call>, host: Host, j: nat) returns (a: nat)
    requires Created(Run(calls, host).log) < TWO_32
    requires j < |Run(calls, host).log| && Run(calls, host).log[j].Fired?
    ensures var log := Run(calls, host).log;
            && a < j && ArmedAt(log[..j], log[j].entry, a) && log[j].entry.timeout <= log[j].now
            && log[a].Added? && log[a].entry.id == log[j].entry.id
            && (forall i :: a < i < j ==> !Cancels(log[i], log[j].entry.id))
            && (forall b :: 0 <= b < |log| && log[b].Added? && log[b].entry.id == log[j].entry.id ==> b == a)
  {
    RunKeeps(calls, host);
    var log := Run(calls, host).log;
    assert LegalAt(log, j);
    a :| ArmedAt(log[..j], log[j].entry, a);
    assert forall i :: 0 <= i < j ==> log[..j][i] == log[i];
    forall b | 0 <= b < |log| && log[b].Added? && log[b].entry.id == log[j].entry.id
      ensures b == a
    {
      assert a < b ==> InOrderAt(log, a, b);
      assert b < a ==> InOrderAt(log, b, a);
    }
  }

  /** Once an existing timer is cancelled, it never fires again. */
  lemma CancelledStaysSilent(calls: seq<Call>, host: Host, a: nat, i: nat, j: nat)
    requires Created(Run(calls, host).log) < TWO_32
    requires a < i < j < |Run(calls, host).log|
    requires Run(calls, host).log[a].Added?
    requires Cancels(Run(calls, host).log[i], Run(calls, host).log[a].entry.id)
    ensures !Fires(Run(calls, host).log[j], Run(calls, host).log[a].entry.id)
  {
    if Fires(Run(calls, host).log[j], Run(calls, host).log[a].entry.id) {
      var _ := Origin(calls, host, j);
    }
  }

  /** A one-shot timer fires at most once in a whole run. */
  lemma OneShotFiresOnce(calls: seq<Call>, host: Host, a: nat)
    requires Created(Run(calls, host).log) < TWO_32
    requires a < |Run(calls, host).log| && Run(calls, host).log[a].Added?
    requires Run(calls, host).log[a].entry.interval == 0
    ensures Firings(Run(calls, host).log, Run(calls, host).log[a].entry.id) <= 1
  {
    var log := Run(calls, host).log;
    if Firings(log, log[a].entry.id) > 0 {
      var j := LastFiring(log, log[a].entry.id);
      var _ := Origin(calls, host, j);
    }
  }

  /**
   A cyclic timer that first expires at `first` has fired at most (t - first) / interval + 1 times
   by time `t`, whatever the clock and the callbacks did, as long as no re-arming overflowed.
   */
  lemma CyclicRate(calls: seq<Call>, host: Host, a: nat, t: nat)
    requires Created(Run(calls, host).log) < TWO_32
    requires a < |Run(calls, host).log| && Run(calls, host).log[a].Added?
    requires Run(calls, host).log[a].entry.interval > 0
    requires NoOverflow(Run(calls, host).log)
    requires forall j :: 0 <= j < |Run(calls, host).log| && Run(calls, host).log[j].Fired? ==>
               Run(calls, host).log[j].now <= t
    ensures var timer := Run(calls, host).log[a].entry;
            var n := Firings(Run(calls, host).log, timer.id);
            n == 0 || (timer.timeout <= t && n <= (t - timer.timeout) / timer.interval + 1)
  {
    hide Created, Run, Inv, ArmedAt, Firings;
    var log := Run(calls, host).log;
    var timer := log[a].entry;
    var n := Firings(log, timer.id);
    if n > 0 {
      var j := LastFiring(log, timer.id);
      var b := Origin(calls, host, j);
      assert NoOverflow(log[..j]);
      ArmedRate(log[..j], log[j].entry, b);
      assert timer.timeout + (n - 1) * timer.interval <= log[j].entry.timeout <= t;
      DivideBound(n - 1, timer.interval, t - timer.timeout);
    }
  }

  // ----- When a timer fires

  /** The timer fires for the first time when it was first due. */
  lemma FirstFiringDue(calls: seq<Call>, host: Host, a: nat, j: nat)
    requires Created(Run(calls, host).log) < TWO_32
    requires a < |Run(calls, host).log| && Run(calls, host).log[a].Added?
    requires j < |Run(calls, host).log| && Fires(Run(calls, host).log[j], Run(calls, host).log[a].entry.id)
    requires Firings(Run(calls, host).log[..j], Run(calls, host).log[a].entry.id) == 0
    ensures a < j && Run(calls, host).log[j].entry == Run(calls, host).log[a].entry
  {
    var b := Origin(calls, host, j);
  }

  /**
   Two firings of a timer with none in between: it is due again one interval after it was due, if that
   is after the first firing and fits the clock, and else one interval after the time of that firing, on the 64-bit clock.
   */
  lemma NextFiringDue(calls: seq<Call>, host: Host, i: nat, j: nat, id: uint32)
    requires Created(Run(calls, host).log) < TWO_32
    requires i < j < |Run(calls, host).log| && Fires(Run(calls, host).log[i], id) && Fires(Run(calls, host).log[j], id)
    requires forall k :: i < k < j ==> !Fires(Run(calls, host).log[k], id)
    ensures var first, second := Run(calls, host).log[i], Run(calls, host).log[j].entry;
            var due, interval := first.entry.timeout, first.entry.interval;
            && second.interval == interval && second.cb == first.entry.cb
            && (first.now < due + interval < TWO_64 ==> second.timeout == due + interval)
            && (due + interval <= first.now || due + interval >= TWO_64 ==>
                  second.timeout == (first.now + interval) % 0x1_0000_0000_0000_0000)
  {
    hide Created, Run, Inv, ArmedAt, Firings;
    var log := Run(calls, host).log;
    var a := Origin(calls, host, j);
    var b := Origin(calls, host, i);
    assert IsLast(log[..j], i, id);
    ArmedNext(log[..j], log[j].entry, a, i);
  }

  /** Every firing so far came before the timer was due once more. */
  ghost predicate OnTime(log: seq<Event>, id: uint32) {
    forall i :: 0 <= i < |log| && Fires(log[i], id) ==> log[i].now < log[i].entry.timeout + log[i].entry.interval < TWO_64
  }

  lemma OnTimeBefore(log: seq<Event>, id: uint32, i: nat, j: nat)
    requires i < j <= |log| && Fires(log[i], id) && OnTime(log[..j], id)
    ensures OnTime(log[..i], id)
    ensures log[i].now < log[i].entry.timeout + log[i].entry.interval < TWO_64
  {
    assert forall k :: 0 <= k < j ==> log[..j][k] == log[k];
  }

  /** A timer that is first due at f and always fires on time fires the k-th time with timeout f + k * interval. */
  lemma {:induction false} KeepsPhase(calls: seq<Call>, host: Host, a: nat, j: nat)
    requires Created(Run(calls, host).log) < TWO_32
    requires a < |Run(calls, host).log| && Run(calls, host).log[a].Added?
    requires j < |Run(calls, host).log| && Fires(Run(calls, host).log[j], Run(calls, host).log[a].entry.id)
    requires OnTime(Run(calls, host).log[..j], Run(calls, host).log[a].entry.id)
    ensures var log := Run(calls, host).log;
            var timer := log[a].entry;
            && log[j].entry.timeout == timer.timeout + Firings(log[..j], timer.id) * timer.interval
            && log[j].entry.interval == timer.interval
    decreases j
  {
    hide Created, Run, Firings, OnTime;
    var log := Run(calls, host).log;
    var timer := log[a].entry;
    var before := log[..j];
    if Firings(before, timer.id) == 0 {
      FirstFiringDue(calls, host, a, j);
    } else {
      var i := LastFiring(before, timer.id);
      OnTimeBefore(log, timer.id, i, j);
      assert before[..i] == log[..i];
      assert forall k :: i < k < j ==> before[k] == log[k];
      KeepsPhase(calls, host, a, i);
      NextFiringDue(calls, host, i, j, timer.id);
      assert (Firings(log[..i], timer.id) + 1) * timer.interval == Firings(log[..i], timer.id) * timer.interval + timer.interval;
    }
  }

  lemma DivideBound(k: nat, d: nat, x: nat)
    requires d > 0 && k * d <= x
    ensures k <= x / d
  {
    if k > x / d {
      MulMonotone(x / d + 1, k, d);
    }
  }

  lemma MulMonotone(k: nat, l: nat, d: nat)
    requires k <= l
    ensures k * d <= l * d
  {
  }
}
