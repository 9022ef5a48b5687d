/** The lease lock kept in one Redis key (common/cache/redis_cache.go): SET NX with an expiry to
    take it, and an unlock closure that deletes the key whoever owns it by then. */
module LeaseLock {
  import opened Numerals

  // ------------------------------------------------------------------ keys

  function CacheKey(prefix: string, k: string): string { if prefix == "" then k else prefix + ":" + k }

  function LockKey(prefix: string, k: string): string { CacheKey(prefix, "lock:" + k) }

  /** Within one cache, an entry lands on a lock exactly when it is itself named "lock:...",
      so two locks meet exactly when their names agree. */
  lemma KeysMeetExactly(prefix: string, entry: string, k: string, j: string)
    ensures CacheKey(prefix, entry) == LockKey(prefix, k) <==> entry == "lock:" + k
    ensures LockKey(prefix, k) == LockKey(prefix, j) <==> k == j
  {
    CacheKeyInjective(prefix, entry, "lock:" + k);
    CacheKeyInjective(prefix, "lock:" + j, "lock:" + k);
    assert ("lock:" + j)[5..] == j && ("lock:" + k)[5..] == k;
  }

  lemma CacheKeyInjective(prefix: string, a: string, b: string)
    ensures CacheKey(prefix, a) == CacheKey(prefix, b) <==> a == b
  {
    var n := |prefix| + 1;
    assert prefix != "" ==> CacheKey(prefix, a)[n..] == a && CacheKey(prefix, b)[n..] == b;
  }

  /** Two caches on one server can share a lock by accident. */
  lemma PrefixesCanMeet(k: string)
    ensures LockKey("a", "lock:" + k) == LockKey("a:lock", k)
  {
    assert LockKey("a", "lock:" + k) == "a:lock:lock:" + k == LockKey("a:lock", k);
  }

  // ----------------------------------------------------------------- state

  /** What one successful Lock call gave its caller; no expiry means a lease without end. */
  datatype Lease = Lease(key: string, until: Option<int>, released: bool)

  /** The server's keys with their expiry, and every lease handed out. */
  datatype State = State(store: map<string, Option<int>>, leases: map<nat, Lease>)

  const START := State(map[], map[])

  predicate Runs(until: Option<int>, t: int) { until.None? || t <= until.value }

  predicate Live(s: State, prefix: string, key: string, t: int)
  {
    LockKey(prefix, key) in s.store && Runs(s.store[LockKey(prefix, key)], t)
  }

  /** Caller `id` believes, rightly, that its lease still runs and has not unlocked. */
  predicate Holds(s: State, id: nat, t: int)
  {
    id in s.leases && !s.leases[id].released && Runs(s.leases[id].until, t)
  }

  predicate HoldsKey(s: State, id: nat, key: string, t: int)
  {
    Holds(s, id, t) && s.leases[id].key == key
  }

  function Until(ttl: nat, at: int): Option<int> { if ttl == 0 then None else Some(at + ttl) }

  /** SET key locked NX PX ttl. A zero duration sets no expiry, and a negative one is refused
      by the server. */
  predicate LockSucceeds(prefix: string, s: State, key: string, ttl: int, at: int)
  {
    ttl >= 0 && !Live(s, prefix, key, at)
  }

  function LockStep(prefix: string, s: State, id: nat, key: string, ttl: int, at: int): State
  {
    if LockSucceeds(prefix, s, key, ttl, at) then
      State(s.store[LockKey(prefix, key) := Until(ttl, at)], s.leases[id := Lease(key, Until(ttl, at), false)])
    else s
  }

  /** DEL key, by the closure of lease `id`. */
  function UnlockStep(prefix: string, s: State, id: nat): State
  {
    if id in s.leases then
      State(s.store - {LockKey(prefix, s.leases[id].key)}, s.leases[id := s.leases[id].(released := true)])
    else s
  }

  // ------------------------------------------------------------------ runs

  datatype Event = Acquire(id: nat, key: string, ttl: int, at: int) | Unlock(id: nat, key: string, at: int)

  function Step(prefix: string, s: State, e: Event): State
  {
    if e.Acquire? then LockStep(prefix, s, e.id, e.key, e.ttl, e.at) else UnlockStep(prefix, s, e.id)
  }

  function RunFrom(prefix: string, s: State, events: seq<Event>): State
  {
    if events == [] then s else Step(prefix, RunFrom(prefix, s, events[..|events| - 1]), events[|events| - 1])
  }

  function RunOf(prefix: string, events: seq<Event>): State { RunFrom(prefix, START, events) }

  /** Every call of Lock has its own identity, and only a lease can be unlocked. */
  predicate LegalStep(s: State, e: Event)
  {
    if e.Acquire? then e.id !in s.leases else e.id in s.leases && s.leases[e.id].key == e.key
  }

  function LastTime(events: seq<Event>): int { if events == [] then 0 else events[|events| - 1].at }

  /** The server's clock does not run backwards, and every step is legal. */
  predicate Legal(prefix: string, events: seq<Event>)
  {
    events == [] ||
    var init, e := events[..|events| - 1], events[|events| - 1];
    Legal(prefix, init) && LastTime(init) <= e.at && LegalStep(RunOf(prefix, init), e)
  }

  /** At most one holder of every key. */
  ghost predicate Exclusive(s: State, t: int)
  {
    forall i: nat, j: nat :: Holds(s, i, t) && Holds(s, j, t) && s.leases[i].key == s.leases[j].key ==> i == j
  }

  /** Guard an unlock needs: the caller's own lease still runs, or the key is gone anyway. */
  predicate MayUnlock(prefix: string, s: State, e: Event, t: int)
  {
    e.Unlock? ==> Holds(s, e.id, t) || !Live(s, prefix, e.key, t)
  }

  predicate Timely(prefix: string, events: seq<Event>)
  {
    events == [] ||
    var init, e := events[..|events| - 1], events[|events| - 1];
    Timely(prefix, init) && MayUnlock(prefix, RunOf(prefix, init), e, e.at)
  }

  // ------------------------------------------------------------- exclusion

  /** A key is on the server exactly while somebody holds it, and then only one does. */
  ghost predicate Synced(prefix: string, s: State, t: int)
  {
    (forall i: nat | Holds(s, i, t) ::
       LockKey(prefix, s.leases[i].key) in s.store &&
       s.store[LockKey(prefix, s.leases[i].key)] == s.leases[i].until) &&
    (forall key: string | Live(s, prefix, key, t) ::
       exists i: nat :: HoldsKey(s, i, key, t) && s.leases[i].until == s.store[LockKey(prefix, key)]) &&
    Exclusive(s, t)
  }

  lemma SyncedLater(prefix: string, s: State, now: int, t: int)
    requires Synced(prefix, s, now) && now <= t
    ensures Synced(prefix, s, t)
  {
    forall i: nat | Holds(s, i, t) ensures Holds(s, i, now) {}
    forall key: string | Live(s, prefix, key, t)
      ensures exists i: nat :: HoldsKey(s, i, key, t) && s.leases[i].until == s.store[LockKey(prefix, key)]
    {
      assert Live(s, prefix, key, now);
      var i: nat :| HoldsKey(s, i, key, now) && s.leases[i].until == s.store[LockKey(prefix, key)];
      assert HoldsKey(s, i, key, t);
    }
  }

  /** While synced, Lock succeeds exactly when nobody holds the key. */
  lemma LockSucceedsIffFree(prefix: string, s: State, key: string, ttl: nat, t: int)
    requires Synced(prefix, s, t)
    ensures LockSucceeds(prefix, s, key, ttl, t) <==> forall i: nat :: !HoldsKey(s, i, key, t)
  {
  }

  lemma LockKeeps(prefix: string, s: State, id: nat, key: string, ttl: int, at: int)
    requires Synced(prefix, s, at) && id !in s.leases
    ensures Synced(prefix, LockStep(prefix, s, id, key, ttl, at), at)
  {
    var r := LockStep(prefix, s, id, key, ttl, at);
    if LockSucceeds(prefix, s, key, ttl, at) {
      hide LockKey;
      forall j: string ensures LockKey(prefix, key) == LockKey(prefix, j) <==> key == j {
        KeysMeetExactly(prefix, "", key, j);
      }
      LockSucceedsIffFree(prefix, s, key, ttl, at);
      forall i: nat | Holds(r, i, at) && i != id
        ensures HoldsKey(s, i, s.leases[i].key, at) && r.leases[i].key != key
      {
      }
      forall j: string | Live(r, prefix, j, at)
        ensures exists i: nat :: HoldsKey(r, i, j, at) && r.leases[i].until == r.store[LockKey(prefix, j)]
      {
        if j == key {
          assert HoldsKey(r, id, j, at);
        } else {
          assert Live(s, prefix, j, at);
          var i: nat :| HoldsKey(s, i, j, at) && s.leases[i].until == s.store[LockKey(prefix, j)];
          assert HoldsKey(r, i, j, at);
        }
      }
    }
  }

  lemma UnlockKeeps(prefix: string, s: State, e: Event)
    requires e.Unlock? && Synced(prefix, s, e.at) && LegalStep(s, e) && MayUnlock(prefix, s, e, e.at)
    ensures Synced(prefix, UnlockStep(prefix, s, e.id), e.at)
  {
    var at, r := e.at, UnlockStep(prefix, s, e.id);
    hide LockKey;
    forall j: string ensures LockKey(prefix, e.key) == LockKey(prefix, j) <==> e.key == j {
      KeysMeetExactly(prefix, "", e.key, j);
    }
    forall i: nat | Holds(r, i, at) ensures HoldsKey(s, i, s.leases[i].key, at) && r.leases[i].key != e.key {}
    forall j: string | Live(r, prefix, j, at)
      ensures exists i: nat :: HoldsKey(r, i, j, at) && r.leases[i].until == r.store[LockKey(prefix, j)]
    {
      assert Live(s, prefix, j, at) && j != e.key;
      var i: nat :| HoldsKey(s, i, j, at) && s.leases[i].until == s.store[LockKey(prefix, j)];
      assert HoldsKey(r, i, j, at);
    }
  }

  /** Runs whose unlocks are all guarded keep the key and its holder in step. */
  lemma {:induction false} TimelyIsSynced(prefix: string, events: seq<Event>, t: int)
    requires Legal(prefix, events) && Timely(prefix, events) && LastTime(events) <= t
    ensures Synced(prefix, RunOf(prefix, events), t)
  {
    hide Synced, LockStep, UnlockStep, MayUnlock;
    if events == [] {
      StartIsSynced(prefix, t);
    } else {
      var init, e := events[..|events| - 1], events[|events| - 1];
      TimelyIsSynced(prefix, init, e.at);
      if e.Acquire? {
        LockKeeps(prefix, RunOf(prefix, init), e.id, e.key, e.ttl, e.at);
      } else {
        UnlockKeeps(prefix, RunOf(prefix, init), e);
      }
      SyncedLater(prefix, RunOf(prefix, events), e.at, t);
    }
  }

  lemma StartIsSynced(prefix: string, t: int)
    ensures Synced(prefix, START, t)
  {
  }

  /** Holders that unlock, if at all, before their lease ends. */
  predicate UnlocksInTime(prefix: string, events: seq<Event>)
  {
    events == [] ||
    var init, e := events[..|events| - 1], events[|events| - 1];
    UnlocksInTime(prefix, init) && (e.Unlock? ==> Holds(RunOf(prefix, init), e.id, e.at))
  }

  lemma {:induction false} InTimeIsTimely(prefix: string, events: seq<Event>)
    requires UnlocksInTime(prefix, events)
    ensures Timely(prefix, events)
  {
    if events != [] {
      InTimeIsTimely(prefix, events[..|events| - 1]);
    }
  }

  /** In every run where holders unlock before their lease ends, at any later moment at most
      one of them holds a given key. */
  lemma MutualExclusion(prefix: string, events: seq<Event>, t: int)
    requires Legal(prefix, events) && UnlocksInTime(prefix, events) && LastTime(events) <= t
    ensures Exclusive(RunOf(prefix, events), t)
  {
    InTimeIsTimely(prefix, events);
    TimelyIsSynced(prefix, events, t);
  }

  // ------------------------------------------------- the condition is exact

  /** After any part of the run, one more call of Lock leaves a single holder. */
  ghost predicate SafeForNewcomers(prefix: string, events: seq<Event>)
  {
    forall n: nat, e: Event :: n <= |events| && SafeNext(prefix, events[..n], e) ==>
      Exclusive(RunOf(prefix, events[..n] + [e]), e.at)
  }

  predicate SafeNext(prefix: string, events: seq<Event>, e: Event)
  {
    e.Acquire? && Legal(prefix, events + [e])
  }

  lemma {:induction false} FreshId(m: map<nat, Lease>) returns (id: nat)
    ensures id !in m && forall i: nat :: i in m ==> i < id
    decreases |m|
  {
    if m.Keys == {} {
      id := 0;
    } else {
      var i :| i in m.Keys;
      assert |(m - {i}).Keys| == |m.Keys| - 1 by { assert (m - {i}).Keys == m.Keys - {i}; }
      id := FreshId(m - {i});
      forall j: nat | j in m ensures j <= (if id <= i then i else id) {
        assert j != i ==> j in m - {i};
      }
      id := if id <= i then i + 1 else id;
    }
  }

  lemma RunSplits(prefix: string, events: seq<Event>, e: Event)
    ensures RunOf(prefix, events + [e]) == Step(prefix, RunOf(prefix, events), e)
    ensures Legal(prefix, events + [e]) <==>
            Legal(prefix, events) && LastTime(events) <= e.at && LegalStep(RunOf(prefix, events), e)
  {
    assert (events + [e])[..|events|] == events;
  }

  /** One unguarded unlock, and the next caller shares the key with a holder. */
  lemma StrayUnlock(prefix: string, events: seq<Event>, u: Event) returns (e: Event)
    requires u.Unlock? && Legal(prefix, events + [u])
    requires Synced(prefix, RunOf(prefix, events), u.at) && !MayUnlock(prefix, RunOf(prefix, events), u, u.at)
    ensures SafeNext(prefix, events + [u], e) && !Exclusive(RunOf(prefix, events + [u] + [e]), e.at)
  {
    var s, r := RunOf(prefix, events), RunOf(prefix, events + [u]);
    RunSplits(prefix, events, u);
    var holder: nat :| HoldsKey(s, holder, u.key, u.at);
    var id := FreshId(r.leases);
    e := Acquire(id, u.key, 0, u.at);
    RunSplits(prefix, events + [u], e);
    var z := RunOf(prefix, events + [u] + [e]);
    assert HoldsKey(r, holder, u.key, u.at);
    assert HoldsKey(z, id, u.key, u.at) && HoldsKey(z, holder, u.key, u.at);
  }

  lemma {:induction false} PrefixesAre(prefix: string, events: seq<Event>, n: nat)
    requires n <= |events| && Legal(prefix, events)
    ensures Legal(prefix, events[..n]) && (Timely(prefix, events) ==> Timely(prefix, events[..n]))
    decreases |events|
  {
    if n < |events| {
      PrefixesAre(prefix, events[..|events| - 1], n);
      assert events[..|events| - 1][..n] == events[..n];
    } else {
      assert events[..n] == events;
    }
  }

  lemma {:induction false} SafeIsTimely(prefix: string, events: seq<Event>)
    requires Legal(prefix, events) && SafeForNewcomers(prefix, events)
    ensures Timely(prefix, events)
  {
    hide Synced, Step, Exclusive, LegalStep;
    if events != [] {
      var init, e := events[..|events| - 1], events[|events| - 1];
      assert SafeForNewcomers(prefix, init) by {
        forall n: nat, x: Event | n <= |init| && SafeNext(prefix, init[..n], x)
          ensures Exclusive(RunOf(prefix, init[..n] + [x]), x.at)
        {
          assert init[..n] == events[..n];
        }
      }
      SafeIsTimely(prefix, init);
      if !MayUnlock(prefix, RunOf(prefix, init), e, e.at) {
        TimelyIsSynced(prefix, init, e.at);
        assert events == init + [e] && events[..|events|] == events;
        var x := StrayUnlock(prefix, init, e);
        assert false;
      }
    }
  }

  /** The unconditional delete keeps the lock safe exactly in the runs whose every unlock is
      guarded: the caller's lease still runs, or the key is gone. */
  lemma SafeExactlyWhenTimely(prefix: string, events: seq<Event>)
    requires Legal(prefix, events)
    ensures SafeForNewcomers(prefix, events) <==> Timely(prefix, events)
  {
    if SafeForNewcomers(prefix, events) {
      SafeIsTimely(prefix, events);
    }
    if Timely(prefix, events) {
      forall n: nat, e: Event | n <= |events| && SafeNext(prefix, events[..n], e)
        ensures Exclusive(RunOf(prefix, events[..n] + [e]), e.at)
      {
        var part := events[..n];
        PrefixesAre(prefix, events, n);
        RunSplits(prefix, part, e);
        assert Timely(prefix, part + [e]) by {
          assert (part + [e])[..|part|] == part;
        }
        TimelyIsSynced(prefix, part + [e], e.at);
      }
    }
  }

  /** Such a run: the first lease ends, a second caller takes the lock, the first unlocks, and
      a third caller joins the second. */
  lemma StaleUnlockWitness(key: string)
    ensures var e0, e1, e2 := Acquire(0, key, 10, 0), Acquire(1, key, 100, 20), Unlock(0, key, 30);
            var events := [e0, e1, e2, Acquire(2, key, 100, 40)];
            Legal("", events) && Holds(RunOf("", events), 1, 40) && Holds(RunOf("", events), 2, 40)
  {
    var e0, e1 := Acquire(0, key, 10, 0), Acquire(1, key, 100, 20);
    var e2, e3 := Unlock(0, key, 30), Acquire(2, key, 100, 40);
    RunSplits("", [], e0);
    RunSplits("", [e0], e1);
    RunSplits("", [e0, e1], e2);
    RunSplits("", [e0, e1, e2], e3);
    assert [] + [e0] == [e0] && [e0] + [e1] == [e0, e1] && [e0, e1] + [e2] == [e0, e1, e2];
    assert [e0, e1, e2] + [e3] == [e0, e1, e2, e3];
  }

  // ------------------------------------------------------- lease lengths

  /** A lease taken at `at` for `ttl` milliseconds still runs at `t`; zero means for ever. */
  predicate Within(ttl: int, at: int, t: int) { ttl == 0 || t <= at + ttl }

  /** A successful Lock makes the key live, and its caller the holder, for exactly the duration
      asked for. */
  lemma LeaseLastsExactly(prefix: string, s: State, id: nat, key: string, ttl: int, at: int, t: int)
    requires LockSucceeds(prefix, s, key, ttl, at) && at <= t
    ensures ttl >= 0
    ensures var after := LockStep(prefix, s, id, key, ttl, at);
            (Live(after, prefix, key, t) <==> ttl == 0 || t <= at + ttl) &&
            (HoldsKey(after, id, key, t) <==> ttl == 0 || t <= at + ttl)
  {
  }

  /** A Lock that fails changes nothing. */
  lemma FailedLockIsNothing(prefix: string, s: State, id: nat, key: string, ttl: int, at: int)
    ensures !LockSucceeds(prefix, s, key, ttl, at) ==> LockStep(prefix, s, id, key, ttl, at) == s
  {
  }

  /** The key's entry is that of a lease taken at `at` for `ttl`. */
  ghost predicate LeasedAt(prefix: string, s: State, key: string, ttl: int, at: int)
  {
    forall t: int :: at <= t ==> (Live(s, prefix, key, t) <==> Within(ttl, at, t))
  }

  /** No unlock of the key, and no other Lock of it once the lease has ended. */
  predicate Undisturbed(between: seq<Event>, key: string, ttl: int, at: int)
  {
    forall e <- between :: e.key == key ==> e.Acquire? && Within(ttl, at, e.at)
  }

  lemma OtherStep(prefix: string, s: State, e: Event, key: string, ttl: int, at: int)
    requires LeasedAt(prefix, s, key, ttl, at) && LegalStep(s, e) && at <= e.at
    requires e.key == key ==> e.Acquire? && Within(ttl, at, e.at)
    ensures LeasedAt(prefix, Step(prefix, s, e), key, ttl, at)
  {
    hide LockKey;
    KeysMeetExactly(prefix, "", e.key, key);
    if e.key == key {
      assert Live(s, prefix, key, e.at);
    } else {
      forall t: int ensures Live(Step(prefix, s, e), prefix, key, t) <==> Live(s, prefix, key, t) {}
    }
  }

  lemma {:induction false} LegalIsOrdered(prefix: string, a: seq<Event>, b: seq<Event>)
    requires Legal(prefix, a + b)
    ensures Legal(prefix, a) && LastTime(a) <= LastTime(a + b)
    decreases |b|
  {
    if b == [] {
      assert a + b == a;
    } else {
      assert (a + b)[..|a + b| - 1] == a + b[..|b| - 1];
      LegalIsOrdered(prefix, a, b[..|b| - 1]);
    }
  }

  lemma {:induction false} LeaseRemains(prefix: string, before: seq<Event>, a: Event, between: seq<Event>)
    requires a.Acquire? && Legal(prefix, before + [a] + between)
    requires LockSucceeds(prefix, RunOf(prefix, before), a.key, a.ttl, a.at)
    requires Undisturbed(between, a.key, a.ttl, a.at)
    ensures LeasedAt(prefix, RunOf(prefix, before + [a] + between), a.key, a.ttl, a.at)
    decreases |between|
  {
    hide Live, LockSucceeds, Step, LegalStep, LeasedAt;
    if between == [] {
      assert before + [a] + between == before + [a];
      RunSplits(prefix, before, a);
      TakenLease(prefix, RunOf(prefix, before), a);
    } else {
      var init, e := between[..|between| - 1], between[|between| - 1];
      assert before + [a] + between == (before + [a] + init) + [e];
      RunSplits(prefix, before + [a] + init, e);
      assert forall x <- init :: x in between;
      LeaseRemains(prefix, before, a, init);
      LegalIsOrdered(prefix, before + [a], init);
      assert LastTime(before + [a]) == a.at;
      assert e in between;
      OtherStep(prefix, RunOf(prefix, before + [a] + init), e, a.key, a.ttl, a.at);
    }
  }

  lemma TakenLease(prefix: string, s: State, a: Event)
    requires a.Acquire? && LockSucceeds(prefix, s, a.key, a.ttl, a.at)
    ensures LeasedAt(prefix, Step(prefix, s, a), a.key, a.ttl, a.at)
  {
    forall t: int | a.at <= t ensures Live(Step(prefix, s, a), prefix, a.key, t) <==> Within(a.ttl, a.at, t) {
      LeaseLastsExactly(prefix, s, a.id, a.key, a.ttl, a.at, t);
    }
  }

  /** Over runs: after a successful Lock, as long as nobody unlocks the key or locks it after the
      lease has ended, another Lock of it succeeds exactly when the lease was a finite one and
      has ended. */
  lemma NextLockExactly(prefix: string, before: seq<Event>, a: Event, between: seq<Event>, b: Event)
    requires a.Acquire? && b.Acquire? && a.key == b.key && b.ttl >= 0
    requires Legal(prefix, before + [a] + between + [b])
    requires LockSucceeds(prefix, RunOf(prefix, before), a.key, a.ttl, a.at)
    requires forall e <- between :: e.key == a.key ==>
               e.Acquire? && (a.ttl > 0 && b.at > a.at + a.ttl ==> e.at <= a.at + a.ttl)
    ensures LockSucceeds(prefix, RunOf(prefix, before + [a] + between), b.key, b.ttl, b.at) <==>
            a.ttl > 0 && b.at > a.at + a.ttl
  {
    hide Legal, RunOf, LastTime;
    RunSplits(prefix, before + [a] + between, b);
    TimesBefore(prefix, before + [a] + between);
    assert Undisturbed(between, a.key, a.ttl, a.at) by {
      forall e <- between | e.key == a.key ensures e.Acquire? && Within(a.ttl, a.at, e.at) {
        assert e in before + [a] + between;
      }
    }
    LeaseRemains(prefix, before, a, between);
    assert a in before + [a] + between;
  }

  lemma {:induction false} TimesBefore(prefix: string, events: seq<Event>)
    requires Legal(prefix, events)
    ensures forall e <- events :: e.at <= LastTime(events)
  {
    if events != [] {
      var init := events[..|events| - 1];
      TimesBefore(prefix, init);
      assert events == init + [events[|events| - 1]];
    }
  }

  // ------------------------------------------------------- other keys

  function OnKey(events: seq<Event>, key: string): seq<Event>
  {
    if events == [] then []
    else
      var rest := OnKey(events[..|events| - 1], key);
      if events[|events| - 1].key == key then rest + [events[|events| - 1]] else rest
  }

  /** All that concerns one lock: its key on the server and the leases given on it; in `b`
      there are no others. */
  ghost predicate SameLock(prefix: string, a: State, b: State, key: string)
  {
    var k := LockKey(prefix, key);
    (k in a.store <==> k in b.store) && (k in a.store ==> a.store[k] == b.store[k]) &&
    (forall i: nat :: (i in a.leases && a.leases[i].key == key) <==> i in b.leases) &&
    (forall i: nat :: i in b.leases ==> a.leases[i] == b.leases[i])
  }

  lemma SameLockStep(prefix: string, a: State, b: State, e: Event, key: string)
    requires SameLock(prefix, a, b, key) && LegalStep(a, e)
    ensures e.key == key ==> LegalStep(b, e) && SameLock(prefix, Step(prefix, a, e), Step(prefix, b, e), key)
    ensures e.key != key ==> SameLock(prefix, Step(prefix, a, e), b, key)
  {
    hide LockKey;
    KeysMeetExactly(prefix, "", e.key, key);
  }

  /** Locks on different keys do not interfere: a lock fares as if the other keys' events had
      never happened. */
  lemma {:induction false} KeysDoNotInterfere(prefix: string, events: seq<Event>, key: string)
    requires Legal(prefix, events)
    ensures Legal(prefix, OnKey(events, key)) && LastTime(OnKey(events, key)) <= LastTime(events)
    ensures SameLock(prefix, RunOf(prefix, events), RunOf(prefix, OnKey(events, key)), key)
  {
    if events != [] {
      hide Step, LegalStep, SameLock;
      var init, e := events[..|events| - 1], events[|events| - 1];
      KeysDoNotInterfere(prefix, init, key);
      SameLockStep(prefix, RunOf(prefix, init), RunOf(prefix, OnKey(init, key)), e, key);
      if e.key == key {
        RunSplits(prefix, OnKey(init, key), e);
      }
    }
  }

  // ----------------------------------------------------------------- retry

  /** What the other callers do before an attempt, and when the attempt runs. */
  datatype Round = Round(others: seq<Event>, at: int)

  /** The joint run of `n` attempts by caller `id` and the others. */
  function Joint(id: nat, key: string, ttl: int, rounds: seq<Round>): seq<Event>
  {
    if rounds == [] then []
    else
      var last := rounds[|rounds| - 1];
      Joint(id, key, ttl, rounds[..|rounds| - 1]) + last.others + [Acquire(id, key, ttl, last.at)]
  }

  /** Attempt `i`, after `i` failed ones, finds the key free. */
  predicate AttemptWins(prefix: string, s: State, id: nat, key: string, ttl: int, rounds: seq<Round>, i: nat)
    requires i < |rounds|
  {
    var before := Joint(id, key, ttl, rounds[..i]) + rounds[i].others;
    LockSucceeds(prefix, RunFrom(prefix, s, before), key, ttl, rounds[i].at)
  }

  lemma {:induction false} RunFromConcat(prefix: string, s: State, a: seq<Event>, b: seq<Event>)
    ensures RunFrom(prefix, s, a + b) == RunFrom(prefix, RunFrom(prefix, s, a), b)
    decreases |b|
  {
    if b == [] {
      assert a + b == a;
    } else {
      assert (a + b)[..|a + b| - 1] == a + b[..|b| - 1];
      RunFromConcat(prefix, s, a, b[..|b| - 1]);
    }
  }

  lemma EmptyJoint(id: nat, key: string, ttl: int)
    ensures Joint(id, key, ttl, []) == []
  {
  }

  lemma JointStep(prefix: string, s: State, id: nat, key: string, ttl: int, rounds: seq<Round>, i: nat)
    requires i < |rounds|
    ensures var before := RunFrom(prefix, RunFrom(prefix, s, Joint(id, key, ttl, rounds[..i])), rounds[i].others);
            RunFrom(prefix, s, Joint(id, key, ttl, rounds[..i + 1])) ==
            LockStep(prefix, before, id, key, ttl, rounds[i].at) &&
            AttemptWins(prefix, s, id, key, ttl, rounds, i) == LockSucceeds(prefix, before, key, ttl, rounds[i].at)
  {
    hide LockStep, LockSucceeds;
    var done, e := Joint(id, key, ttl, rounds[..i]), Acquire(id, key, ttl, rounds[i].at);
    assert rounds[..i + 1][..i] == rounds[..i];
    assert Joint(id, key, ttl, rounds[..i + 1]) == done + rounds[i].others + [e];
    RunFromConcat(prefix, s, done, rounds[i].others);
    assert (done + rounds[i].others + [e])[..|done + rounds[i].others|] == done + rounds[i].others;
  }

  class Server {
    const prefix: string
    var store: map<string, Option<int>>
    var leases: map<nat, Lease>

    ghost function Now(): State
      reads this
    {
      State(store, leases)
    }

    constructor (prefix: string)
      ensures this.prefix == prefix && Now() == START
    {
      this.prefix := prefix;
      store, leases := map[], map[];
    }

    method Lock(id: nat, key: string, ttl: int, at: int) returns (ok: bool)
      modifies this
      ensures ok == LockSucceeds(prefix, old(Now()), key, ttl, at)
      ensures Now() == LockStep(prefix, old(Now()), id, key, ttl, at)
    {
      var lockKey := LockKey(prefix, key);
      if ttl < 0 || (lockKey in store && Runs(store[lockKey], at)) {
        return false;
      }
      store := store[lockKey := Until(ttl, at)];
      leases := leases[id := Lease(key, Until(ttl, at), false)];
      return true;
    }

    method Unlock(id: nat)
      requires id in leases
      modifies this
      ensures Now() == UnlockStep(prefix, old(Now()), id)
    {
      store := store - {LockKey(prefix, leases[id].key)};
      leases := leases[id := leases[id].(released := true)];
    }

    /** Whatever the other callers do. */
    method Environment(events: seq<Event>)
      modifies this
      ensures Now() == RunFrom(prefix, old(Now()), events)
    {
      for i := 0 to |events|
        invariant Now() == RunFrom(prefix, old(Now()), events[..i])
      {
        assert events[..i + 1][..i] == events[..i];
        var e := events[i];
        if e.Acquire? {
          var _ := Lock(e.id, e.key, e.ttl, e.at);
        } else if e.id in leases {
          Unlock(e.id);
        }
      }
      assert events[..|events|] == events;
    }

    /** At most maxRetries + 1 attempts with a pause between any two; the first that finds the
        key free is the last, and the outcome is the outcome of that one. */
    method LockWithRetry(id: nat, key: string, ttl: int, maxRetries: int, rounds: seq<Round>)
      returns (ok: bool, attempts: nat, pauses: nat)
      requires |rounds| >= maxRetries + 1
      modifies this
      ensures attempts <= (if maxRetries < 0 then 0 else maxRetries + 1) && attempts <= |rounds|
      ensures pauses == if attempts == 0 then 0 else attempts - 1
      ensures Now() == RunFrom(prefix, old(Now()), Joint(id, key, ttl, rounds[..attempts]))
      ensures forall i :: 0 <= i < attempts ==>
        (AttemptWins(prefix, old(Now()), id, key, ttl, rounds, i) <==> ok && i == attempts - 1)
      ensures ok ==> attempts > 0
      ensures !ok ==> attempts == if maxRetries < 0 then 0 else maxRetries + 1
    {
      hide Joint, AttemptWins, LockStep, LockSucceeds;
      ok, attempts, pauses := false, 0, 0;
      assert Joint(id, key, ttl, rounds[..0]) == [] by { EmptyJoint(id, key, ttl); }
      while attempts <= maxRetries
        invariant attempts <= (if maxRetries < 0 then 0 else maxRetries + 1)
        invariant pauses == if maxRetries >= 0 && attempts == maxRetries + 1 then maxRetries else attempts
        invariant Now() == RunFrom(prefix, old(Now()), Joint(id, key, ttl, rounds[..attempts]))
        invariant forall i :: 0 <= i < attempts ==> !AttemptWins(prefix, old(Now()), id, key, ttl, rounds, i)
      {
        JointStep(prefix, old(Now()), id, key, ttl, rounds, attempts);
        Environment(rounds[attempts].others);
        ok := Lock(id, key, ttl, rounds[attempts].at);
        if ok {
          attempts := attempts + 1;
          return;
        }
        if attempts < maxRetries {
          pauses := pauses + 1;
        }
        attempts := attempts + 1;
      }
    }
  }
}
