/**
 The timer manager of core/timermanager.cpp. Its methods are proved against the state machine of
 `TimerModel` and keep the invariant from which `TimerSafety` reads off what every run promises.
 The current time is a parameter, and the answers of the callbacks come from the host.
 */
module TimerManager {
  import opened Words
  import opened TimerQueue
  import opened TimerModel
  import opened TimerSafety

  function EntryOf(t: TimerInfo): Entry
    reads t
  {
    Entry(t.id, t.timeoutNs, t.intervalNs, t.cb)
  }

  ghost function Entries(c: seq<TimerInfo>): set<Entry>
    reads c
  {
    set t | t in c :: EntryOf(t)
  }

  /** No timer object is queued twice. */
  ghost predicate Distinct(c: seq<TimerInfo>) {
    forall t :: t in c ==> multiset(c)[t] == 1
  }

  lemma Pushed(c: seq<TimerInfo>, d: seq<TimerInfo>, t: TimerInfo)
    requires multiset(d) == multiset(c) + multiset{t} && t !in c && Distinct(c)
    ensures Distinct(d) && Entries(d) == Entries(c) + {EntryOf(t)}
    ensures forall u :: u in d <==> u in c || u == t
  {
    assert forall u :: u in d <==> u in multiset(d);
    assert forall u :: u in c <==> u in multiset(c);
  }

  lemma Removed(c: seq<TimerInfo>, d: seq<TimerInfo>, t: TimerInfo)
    requires multiset(d) == multiset(c) - multiset{t} && t in c && Distinct(c)
    ensures Distinct(d)
    ensures forall u :: u in d <==> u in c && u != t
  {
    assert forall u :: u in d <==> u in multiset(d);
    assert forall u :: u in c <==> u in multiset(c);
  }

  /** With unique ids, removing the object with an id removes the entries with that id. */
  lemma RemovedEntries(c: seq<TimerInfo>, d: seq<TimerInfo>, id: uint32)
    requires UniqueIds(c)
    requires forall u :: u in d ==> u in c && u.id != id
    requires forall u :: u in c && u.id != id ==> u in d
    ensures Entries(d) == set e | e in Entries(c) && e.id != id
    ensures UniqueIds(d)
  {
    forall e | e in Entries(c) && e.id != id
      ensures e in Entries(d)
    {
      var u :| u in c && EntryOf(u) == e;
      assert u in d;
    }
  }

  lemma OnlyEntry(c: seq<TimerInfo>, t: TimerInfo)
    requires UniqueIds(c) && t in c
    ensures EntryOf(t) in Entries(c)
    ensures (set e | e in Entries(c) && e.id != t.id) == Entries(c) - {EntryOf(t)}
  {
  }

  ghost predicate UniqueIds(c: seq<TimerInfo>) {
    forall t, u :: t in c && u in c && t.id == u.id ==> t == u
  }

  lemma IdsBelow(c: seq<TimerInfo>, id: uint32, log: seq<Event>)
    requires Inv(State(Entries(c), id, log))
    ensures id == Created(log)
    ensures forall u :: u in c ==> u.id <= id
  {
    forall u | u in c
      ensures u.id <= id
    {
      assert EntryOf(u) in Entries(c);
    }
  }

  /** The root of the heap is the timer the state machine fires next. */
  lemma RootIsEarliest(c: seq<TimerInfo>)
    requires |c| > 0 && IsHeap(c)
    requires UniqueIds(c)
    ensures EntryOf(c[0]) in Entries(c) && Entries(c) != {}
    ensures Earliest(Entries(c)) == EntryOf(c[0])
  {
    var root := EntryOf(c[0]);
    assert root in Entries(c);
    var e := Earliest(Entries(c));
    var k :| 0 <= k < |c| && e == EntryOf(c[k]);
    RootIsLeast(c, k);
  }

  /** `d` is `c` without the first timer that carries the id; `c` itself if none does. */
  ghost predicate FirstGone(c: seq<TimerInfo>, d: seq<TimerInfo>, id: uint32) {
    if exists t :: t in c && t.id == id then
      exists k: nat :: FirstMatch(c, k, id) && multiset(d) == multiset(c) - multiset{c[k]}
    else
      d == c
  }

  /** What follows for the timers as a set. */
  lemma FirstIsGone(c: seq<TimerInfo>, d: seq<TimerInfo>, id: uint32)
    requires FirstGone(c, d, id) && Distinct(c)
    ensures Distinct(d) && forall t :: t in d ==> t in c
    ensures UniqueIds(c) ==> UniqueIds(d) && Entries(d) == set e | e in Entries(c) && e.id != id
    ensures |c| > 0 && c[0].id == id ==> forall t :: t in d <==> t in c && t != c[0]
  {
    if exists t :: t in c && t.id == id {
      var k: nat :| FirstMatch(c, k, id) && multiset(d) == multiset(c) - multiset{c[k]};
      Removed(c, d, c[k]);
    }
    if UniqueIds(c) {
      RemovedEntries(c, d, id);
    }
  }

  /** Carries out a sequence of calls on a new manager. */
  method Play(calls: seq<Call>, host: Host) returns (m: TimerManager)
    ensures m.Valid() && fresh(m) && fresh(m.queue) && !m.cbActive
    ensures m.IdsFresh() ==> m.View() == Run(calls, host)
  {
    hide IsHeap, Distinct, Inv, Created, Apply, Process;
    m := new TimerManager();
    var i := 0;
    assert calls[..0] == [];
    while i < |calls|
      invariant 0 <= i <= |calls| && m.Valid() && fresh(m) && fresh(m.queue) && !m.cbActive
      invariant fresh(set t | t in m.queue.c)
      invariant m.IdsFresh() ==> m.View() == Run(calls[..i], host)
    {
      assert calls[..i + 1][..i] == calls[..i];
      m.Carry(calls[i], host);
      i := i + 1;
    }
    assert calls[..|calls|] == calls;
  }

  class TimerManager {
    const queue: PriorityQueue
    var id: uint32
    var cbActive: bool
    var notifications: nat  // how often notify_timer_changes has run
    var log: seq<Event>

    ghost function View(): State
      reads this, queue, queue.c
    {
      State(Entries(queue.c), id, log)
    }

    /** Fewer than 2^32 timers have been created so far. */
    ghost predicate IdsFresh()
      reads this
    {
      Created(log) < TWO_32
    }

    ghost predicate Valid()
      reads this, queue, queue.c
    {
      && queue.Valid() && Distinct(queue.c)
      && (IdsFresh() ==> Inv(View()) && UniqueIds(queue.c))
    }

    constructor ()
      ensures Valid() && View() == INITIAL && !cbActive && fresh(queue) && queue.c == []
    {
      queue := new PriorityQueue();
      id, cbActive, notifications, log := 0, false, 0, [];
    }

    method NotifyUnlessInCallback()
      modifies this`notifications
      ensures notifications == old(notifications) + if cbActive then 0 else 1
    {
      if !cbActive {
        notifications := notifications + 1;
      }
    }

    method Enqueue(ti: TimerInfo)
      requires queue.Valid() && Distinct(queue.c) && ti !in queue.c
      modifies queue
      ensures queue.Valid() && Distinct(queue.c)
      ensures Entries(queue.c) == old(Entries(queue.c)) + {EntryOf(ti)}
      ensures forall t :: t in queue.c <==> t in old(queue.c) || t == ti
    {
      hide IsHeap;
      queue.Push(ti);
      Pushed(old(queue.c), queue.c, ti);
      assert Entries(old(queue.c)) == old(Entries(queue.c));
    }

    /** Takes the timer with this id out of the queue, if there is one. */
    method Dequeue(timerId: uint32)
      requires queue.Valid() && Distinct(queue.c)
      modifies queue
      ensures queue.Valid() && Distinct(queue.c)
      ensures forall t :: t in queue.c ==> t in old(queue.c)
      ensures FirstGone(old(queue.c), queue.c, timerId)
      ensures old(UniqueIds(queue.c)) ==>
                && UniqueIds(queue.c)
                && Entries(queue.c) == set e | e in old(Entries(queue.c)) && e.id != timerId
      ensures |old(queue.c)| > 0 && old(queue.c[0]).id == timerId ==>
                forall t :: t in queue.c <==> t in old(queue.c) && t != old(queue.c[0])
    {
      hide IsHeap, Entries, Distinct, UniqueIds;
      ghost var c := queue.c;
      var removed := queue.RemoveById(timerId);
      assert FirstGone(c, queue.c, timerId);
      FirstIsGone(c, queue.c, timerId);
      assert Entries(c) == old(Entries(queue.c)) && UniqueIds(c) == old(UniqueIds(queue.c));
    }

    method AddAbsoluteTimer(timeoutNs: uint64, interval: uint64, cb: TimerCb) returns (newId: uint32)
      requires Valid()
      modifies this, queue
      ensures Valid() && View() == AddTimer(old(View()), timeoutNs, interval, cb) && newId == id
      ensures cbActive == old(cbActive) && notifications == old(notifications) + if cbActive then 0 else 1
      ensures forall t :: t in queue.c ==> t in old(queue.c) || fresh(t)
    {
      hide Inv, Created, IsHeap, Distinct;
      id := Wrap32(id + 1);
      var ti := new TimerInfo(id, timeoutNs, interval, cb);
      Enqueue(ti);
      log := log + [Added(Entry(id, timeoutNs, interval, cb))];
      NotifyUnlessInCallback();
      CountLast(old(log), log[|old(log)|], 0);
      if IdsFresh() {
        IdsBelow(old(queue.c), old(id), old(log));
        AddKeeps(old(View()), timeoutNs, interval, cb);
      }
      newId := id;
    }

    method CancelTimer(timerId: uint32)
      requires Valid()
      modifies this, queue
      ensures Valid()
      ensures IdsFresh() ==> View() == TimerModel.CancelTimer(old(View()), timerId)
      ensures FirstGone(old(queue.c), queue.c, timerId)
      ensures log == old(log) + [Cancelled(timerId)]
      ensures cbActive == old(cbActive) && notifications == old(notifications) + if cbActive then 0 else 1
      ensures forall t :: t in queue.c ==> t in old(queue.c)
    {
      hide Inv, Created, IsHeap, Distinct;
      Dequeue(timerId);
      log := log + [Cancelled(timerId)];
      NotifyUnlessInCallback();
      CountLast(old(log), log[|old(log)|], 0);
      if IdsFresh() {
        CancelKeeps(old(View()), timerId);
      }
    }

    method CancelAllTimers()
      requires Valid()
      modifies this, queue
      ensures Valid()
      ensures View() == TimerModel.CancelAllTimers(old(View()))
      ensures cbActive == old(cbActive) && notifications == old(notifications)
      ensures queue.c == []
    {
      hide Inv, Created;
      while |queue.c| > 0
        invariant queue.Valid() && unchanged(this)
        decreases |multiset(queue.c)|
      {
        assert |multiset(queue.c)| == |queue.c|;
        var _ := queue.Pop();
      }
      log := log + [Cleared];
      NothingPending();
      assert View() == TimerModel.CancelAllTimers(old(View()));
      CountLast(old(log), log[|old(log)|], 0);
      if IdsFresh() {
        CancelAllKeeps(old(View()));
      }
    }

    method GetNextTimeoutNs() returns (next: uint64)
      requires Valid()
      ensures queue.c == [] ==> next == 0
      ensures queue.c != [] ==> (exists t :: t in queue.c && t.timeoutNs == next) && forall t :: t in queue.c ==> next <= t.timeoutNs
      ensures IdsFresh() ==> next == NextTimeout(View())
    {
      if |queue.c| == 0 {
        NothingPending();
        return 0;
      }
      RootPending(0);
      assert queue.c[0] in queue.c;
      forall t | t in queue.c
        ensures queue.c[0].timeoutNs <= t.timeoutNs
      {
        ghost var k :| 0 <= k < |queue.c| && queue.c[k] == t;
        RootIsLeast(queue.c, k);
      }
      return queue.c[0].timeoutNs;
    }

    /** The callback of a firing: it makes the requests the host answers with. */
    method RunCallback(requests: seq<Request>)
      requires Valid()
      modifies this, queue
      ensures Valid() && Created(old(log)) <= Created(log)
      ensures IdsFresh() ==> View() == ApplyAll(old(View()), requests)
      ensures cbActive == old(cbActive) && (cbActive ==> notifications == old(notifications))
      ensures forall t :: t in queue.c ==> t in old(queue.c) || fresh(t)
      decreases |requests|
    {
      hide Inv, IsHeap, Distinct;
      if requests == [] {
        return;
      }
      match requests[0] {
        case Add(timeoutNs, interval, cb) => var _ := AddAbsoluteTimer(timeoutNs, interval, cb);
        case Cancel(timerId) => CancelTimer(timerId);
        case CancelAll => CancelAllTimers();
      }
      CountLast(old(log), log[|old(log)|], 0);
      RunCallback(requests[1..]);
    }

    /** One call from outside the callbacks. */
    method Carry(call: Call, host: Host)
      requires Valid() && !cbActive
      modifies this, queue, queue.c
      ensures Valid() && !cbActive && Created(old(log)) <= Created(log)
      ensures IdsFresh() ==> View() == match call case Outside(r) => Apply(old(View()), r)
                                                  case Tick(now, fuel) => Process(old(View()), now, host, fuel).0
      ensures forall t :: t in queue.c ==> t in old(queue.c) || fresh(t)
    {
      hide IsHeap, Distinct, Inv, Created, Process;
      match call {
        case Outside(r) =>
          RunCallback([r]);
          OneRequestApplied(old(View()), r);
        case Tick(now, fuel) =>
          var _, _ := ProcessTimers(now, host, fuel);
      }
    }

    lemma OneRequestApplied(s: State, r: Request)
      ensures ApplyAll(s, [r]) == Apply(s, r)
    {
      assert [r][1..] == [];
    }

    /** Moves a cyclic timer that is outside the queue on by its interval, and queues it again. */
    method RearmCyclic(cur: TimerInfo, now: uint64)
      requires queue.Valid() && Distinct(queue.c) && cur !in queue.c && cur.intervalNs != 0
      modifies queue, cur
      ensures queue.Valid() && Distinct(queue.c)
      ensures EntryOf(cur) == old(EntryOf(cur)).(timeout := Rearm(old(cur.timeoutNs), cur.intervalNs, now))
      ensures var due := old(cur.timeoutNs) + cur.intervalNs;
              cur.timeoutNs == if now < due < TWO_64 then due
                               else if due < TWO_64 || due - TWO_64 <= now then (now + cur.intervalNs) % 0x1_0000_0000_0000_0000
                               else due - TWO_64
      ensures Entries(queue.c) == old(Entries(queue.c)) + {EntryOf(cur)}
      ensures forall t :: t in queue.c <==> t in old(queue.c) || t == cur
    {
      hide IsHeap, Distinct;
      var next := Wrap64(cur.timeoutNs + cur.intervalNs);
      if next <= now {
        next := Wrap64(now + cur.intervalNs);
      }
      cur.timeoutNs := next;
      assert Entries(queue.c) == old(Entries(queue.c));
      Enqueue(cur);
    }

    /** Takes the root out of the queue, and puts it back at its next timeout if it is cyclic. */
    method TakeRoot(cur: TimerInfo, now: uint64)
      requires queue.Valid() && Distinct(queue.c) && |queue.c| > 0 && cur == queue.c[0]
      modifies queue, cur
      ensures queue.Valid() && Distinct(queue.c)
      ensures forall t :: t in queue.c ==> t in old(queue.c)
      ensures old(UniqueIds(queue.c)) ==>
                && UniqueIds(queue.c)
                && Entries(queue.c) == old(Entries(queue.c)) - {old(EntryOf(cur))} +
                   if cur.intervalNs > 0 then {old(EntryOf(cur)).(timeout := Rearm(old(cur.timeoutNs), cur.intervalNs, now))} else {}
    {
      hide IsHeap, Distinct;
      if UniqueIds(queue.c) {
        OnlyEntry(queue.c, cur);
      }
      Dequeue(cur.id);
      if cur.intervalNs != 0 {
        RearmCyclic(cur, now);
      }
    }

    /** Fires the root: it leaves the queue or is re-armed, and the firing is recorded. */
    method FireRoot(cur: TimerInfo, now: uint64)
      requires Valid() && |queue.c| > 0 && cur == queue.c[0] && cur.timeoutNs <= now
      modifies this`log, queue, cur
      ensures Valid()
      ensures Created(log) == Created(old(log)) && log == old(log) + [Fired(old(EntryOf(cur)), now)]
      ensures IdsFresh() ==> View() == Fire(old(View()), old(EntryOf(cur)), now)
      ensures forall t :: t in queue.c ==> t in old(queue.c)
    {
      hide Inv, Created, IsHeap, Distinct, UniqueIds, Rearm;
      ghost var e := EntryOf(cur);
      if IdsFresh() {
        RootPending(now);
      }
      var timeoutNs := cur.timeoutNs;
      TakeRoot(cur, now);
      log := log + [Fired(Entry(cur.id, timeoutNs, cur.intervalNs, cur.cb), now)];
      CountLast(old(log), log[|old(log)|], 0);
      if IdsFresh() {
        assert View() == Fire(old(View()), e, now);
        FireKeeps(old(View()), e, now);
      }
    }

    /** One round of the loop: fires the root and runs its callback. */
    method FireAndCall(cur: TimerInfo, now: uint64, host: Host)
      requires Valid() && !cbActive && |queue.c| > 0 && cur == queue.c[0] && cur.timeoutNs <= now
      modifies this, queue, cur
      ensures Valid() && !cbActive && notifications == old(notifications)
      ensures IdsFresh() ==> !old(NothingExpired(View(), now)) && View() == FireNext(old(View()), now, host)
      ensures Created(old(log)) <= Created(log)
      ensures forall t :: t in queue.c ==> t in old(queue.c) || fresh(t)
    {
      hide Inv, Created, IsHeap, Distinct, Fire, ApplyAll;
      RootPending(now);
      FireRoot(cur, now);
      cbActive := true;
      RunCallback(host(log));
      cbActive := false;
    }

    /**
     Fires expired timers until none is left, at most `fuel` of them. `done` says that the call
     ended by itself; then `next` is the next timeout, or 0 when nothing is pending.
     */
    method ProcessTimers(now: uint64, host: Host, fuel: nat) returns (next: uint64, done: bool)
      requires Valid() && !cbActive
      modifies this, queue, queue.c
      ensures Valid() && !cbActive && notifications == old(notifications)
      ensures IdsFresh() ==> (View(), done) == Process(old(View()), now, host, fuel)
      ensures IdsFresh() && done ==> next == NextTimeout(View())
      ensures Created(old(log)) <= Created(log) && forall t :: t in queue.c ==> t in old(queue.c) || fresh(t)
    {
      hide Inv, Created, IsHeap, Distinct, FireNext;
      var left: nat := fuel;
      if |queue.c| == 0 {
        NothingPending();
        return 0, true;
      }
      var cur := queue.c[0];
      while cur.timeoutNs <= now
        invariant Valid() && !cbActive && notifications == old(notifications)
        invariant |queue.c| > 0 && cur == queue.c[0]
        invariant forall t :: t in queue.c ==> t in old(queue.c) || fresh(t)
        invariant Created(old(log)) <= Created(log)
        invariant IdsFresh() ==> Process(old(View()), now, host, fuel) == Process(View(), now, host, left)
        decreases left
      {
        RootPending(now);
        if left == 0 {
          return 0, false;
        }
        assert cur in queue.c;
        FireAndCall(cur, now, host);
        left := left - 1;
        if |queue.c| == 0 {
          NothingPending();
          return 0, true;
        }
        cur := queue.c[0];
      }
      RootPending(now);
      return cur.timeoutNs, true;
    }

    lemma NothingPending()
      requires queue.c == []
      ensures View().queue == {}
    {
    }

    lemma RootPending(now: uint64)
      requires Valid() && |queue.c| > 0
      ensures IdsFresh() ==>
                && View().queue != {} && Earliest(View().queue) == EntryOf(queue.c[0])
                && (NothingExpired(View(), now) <==> queue.c[0].timeoutNs > now)
    {
      if IdsFresh() {
        RootIsEarliest(queue.c);
      }
    }
  }
}
