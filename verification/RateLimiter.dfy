/** The sliding-window limiter kept in one Redis sorted set (common/middleware/redis_ratelimit.go).
    Score and member are both the request's millisecond, so the set holds milliseconds. */
module RateLimiter {
  import opened Numerals

  /** `rate` requests per `window` milliseconds; the service always uses one second. */
  datatype Config = Config(rate: int, window: nat)

  /** The key's expiry: twice the window's whole seconds. */
  function Ttl(c: Config): nat { 2 * (c.window / 1000) * 1000 }

  /** The key: its members, and when the server drops it. An empty sorted set does not exist. */
  datatype Bucket = Bucket(members: set<int>, expireAt: Option<int>)

  const EMPTY := Bucket({}, None)

  // ------------------------------------------------------- Redis commands

  /** Any command first drops a key whose time has passed. */
  function Touch(b: Bucket, at: int): Bucket
  {
    if b.expireAt.Some? && at > b.expireAt.value then EMPTY else b
  }

  /** ZREMRANGEBYSCORE key 0 upTo */
  function RemoveUpTo(b: Bucket, upTo: int): Bucket
  {
    var kept := set m | m in b.members && !(0 <= m <= upTo);
    if kept == {} then EMPTY else Bucket(kept, b.expireAt)
  }

  /** ZADD key m m */
  function AddMember(b: Bucket, m: int): Bucket { b.(members := b.members + {m}) }

  /** EXPIRE key ttl: a time to live of zero deletes the key. */
  function ExpireIn(b: Bucket, ttl: nat, at: int): Bucket
  {
    if ttl == 0 then EMPTY else b.(expireAt := Some(at + ttl))
  }

  // ------------------------------------------------------------ operations

  /** `now` is the caller's clock, `at` the server's, both in milliseconds. */
  function AllowStep(c: Config, b: Bucket, now: int, at: int): (Bucket, bool)
  {
    var pruned := RemoveUpTo(Touch(b, at), now - c.window);
    if |pruned.members| < c.rate then (ExpireIn(AddMember(pruned, now), Ttl(c), at), true)
    else (pruned, false)
  }

  function PruneStep(c: Config, b: Bucket, now: int, at: int): Bucket
  {
    RemoveUpTo(Touch(b, at), now - c.window)
  }

  class Limiter {
    const config: Config
    var members: set<int>
    var expireAt: Option<int>

    ghost function State(): Bucket
      reads this
    {
      Bucket(members, expireAt)
    }

    constructor (config: Config)
      ensures this.config == config && State() == EMPTY
    {
      this.config := config;
      members, expireAt := {}, None;
    }

    method DropIfExpired(at: int)
      modifies this
      ensures State() == Touch(old(State()), at)
    {
      if expireAt.Some? && at > expireAt.value {
        members, expireAt := {}, None;
      }
    }

    method ZRemRangeByScore(upTo: int)
      modifies this
      ensures State() == RemoveUpTo(old(State()), upTo)
    {
      members := set m | m in members && !(0 <= m <= upTo);
      if members == {} {
        expireAt := None;
      }
    }

    /** The script, one command after another. */
    method Allow(now: int, at: int) returns (allowed: bool)
      modifies this
      ensures (State(), allowed) == AllowStep(config, old(State()), now, at)
    {
      DropIfExpired(at);
      ZRemRangeByScore(now - config.window);
      var count := |members|;
      if count < config.rate {
        members := members + {now};
        if Ttl(config) == 0 {
          members, expireAt := {}, None;
        } else {
          expireAt := Some(at + Ttl(config));
        }
        allowed := true;
      } else {
        allowed := false;
      }
    }

    method GetStats(now: int, at: int) returns (count: nat)
      modifies this
      ensures State() == PruneStep(config, old(State()), now, at) && count == |State().members|
    {
      DropIfExpired(at);
      ZRemRangeByScore(now - config.window);
      count := |members|;
    }

    method CleanupExpired(now: int, at: int)
      modifies this
      ensures State() == PruneStep(config, old(State()), now, at)
    {
      DropIfExpired(at);
      ZRemRangeByScore(now - config.window);
    }
  }

  // ------------------------------------------------------------------ runs

  datatype Event = Request(now: int, at: int) | Stats(now: int, at: int) | Cleanup(now: int, at: int)

  /** The bucket and the milliseconds of the admitted requests, in order. */
  datatype Run = Run(bucket: Bucket, log: seq<int>)

  function RunOf(c: Config, events: seq<Event>): Run
  {
    if events == [] then Run(EMPTY, [])
    else NextRun(c, RunOf(c, events[..|events| - 1]), events[|events| - 1])
  }

  function NextRun(c: Config, r: Run, e: Event): Run
  {
    if e.Request? then
      var (b, ok) := AllowStep(c, r.bucket, e.now, e.at);
      Run(b, if ok then r.log + [e.now] else r.log)
    else Run(PruneStep(c, r.bucket, e.now, e.at), r.log)
  }

  /** Distinct admitted milliseconds in (t - window, t]. */
  function InWindow(log: seq<int>, window: nat, t: int): set<int>
  {
    set m | m in log && t - window < m <= t
  }

  /** The specification: look at the whole history and nothing else. */
  function SpecLog(c: Config, events: seq<Event>): seq<int>
  {
    if events == [] then []
    else NextLog(c, SpecLog(c, events[..|events| - 1]), events[|events| - 1])
  }

  function NextLog(c: Config, log: seq<int>, e: Event): seq<int>
  {
    if e.Request? && |InWindow(log, c.window, e.now)| < c.rate then log + [e.now] else log
  }

  /** Callers' clocks never run backwards. */
  predicate ClockAdvances(events: seq<Event>)
  {
    (forall i :: 0 <= i < |events| ==> events[i].now >= 0) &&
    (forall i, j :: 0 <= i < j < |events| ==> events[i].now <= events[j].now)
  }

  /** Callers' and server's clocks stay together: their difference moves by at most the slack
      between the expiry and the window. */
  predicate ClocksAgree(c: Config, offset: int, events: seq<Event>)
  {
    forall i :: 0 <= i < |events| ==> offset <= events[i].now - events[i].at <= offset + Ttl(c) - c.window
  }

  /** What the pruned, expiring set still knows of the history. */
  ghost predicate Knows(c: Config, offset: int, r: Run, last: int)
  {
    (forall m <- r.log :: 0 <= m <= last) &&
    (forall m <- r.bucket.members :: m in r.log) &&
    (forall m <- r.log :: m > last - c.window ==> m in r.bucket.members) &&
    (r.bucket.expireAt.Some? ==>
      forall m <- r.log :: m <= r.bucket.expireAt.value - c.window + offset)
  }

  lemma TouchKeeps(c: Config, offset: int, r: Run, last: int, now: int, at: int)
    requires Knows(c, offset, r, last) && last <= now && offset <= now - at
    ensures forall m <- r.log :: m > now - c.window ==> m in Touch(r.bucket, at).members
    ensures Touch(r.bucket, at).members <= r.bucket.members
  {
  }

  /** After pruning, the members are exactly the admitted milliseconds in the window. */
  lemma PruneIsWindow(c: Config, offset: int, r: Run, last: int, now: int, at: int)
    requires Knows(c, offset, r, last) && last <= now && offset <= now - at
    ensures PruneStep(c, r.bucket, now, at).members == InWindow(r.log, c.window, now)
    ensures Knows(c, offset, Run(PruneStep(c, r.bucket, now, at), r.log), now)
  {
    TouchKeeps(c, offset, r, last, now, at);
  }

  lemma StepRefines(c: Config, offset: int, r: Run, last: int, e: Event)
    requires c.window >= 1000 && 0 <= e.now && last <= e.now
    requires offset <= e.now - e.at <= offset + Ttl(c) - c.window
    requires Knows(c, offset, r, last)
    ensures NextRun(c, r, e).log == NextLog(c, r.log, e)
    ensures Knows(c, offset, NextRun(c, r, e), e.now)
  {
    PruneIsWindow(c, offset, r, last, e.now, e.at);
    assert Ttl(c) > 0;
  }

  /** The sorted set refines the full history: with clocks that advance and agree, the requests
      admitted are those the history admits. Expiry at twice the window, and any GetStats or
      CleanupExpired in between, change no decision. */
  lemma {:induction false} RefinesHistory(c: Config, offset: int, events: seq<Event>)
    requires c.window >= 1000 && ClockAdvances(events) && ClocksAgree(c, offset, events)
    ensures RunOf(c, events).log == SpecLog(c, events)
    ensures Knows(c, offset, RunOf(c, events), if events == [] then 0 else events[|events| - 1].now)
  {
    hide NextRun, NextLog, Knows;
    if events == [] {
      assert Knows(c, offset, Run(EMPTY, []), 0) by { KnowsNothing(c, offset); }
    } else {
      var init, e := events[..|events| - 1], events[|events| - 1];
      RefinesHistory(c, offset, init);
      StepRefines(c, offset, RunOf(c, init), if init == [] then 0 else init[|init| - 1].now, e);
    }
  }

  lemma KnowsNothing(c: Config, offset: int)
    ensures Knows(c, offset, Run(EMPTY, []), 0)
  {
  }

  // ---------------------------------------------------------------- bounds

  lemma {:induction false} SubsetSize<T>(a: set<T>, b: set<T>)
    requires a <= b
    ensures |a| <= |b|
  {
    if x :| x in a {
      SubsetSize(a - {x}, b - {x});
    }
  }

  /** Every window, wherever it ends, holds at most `rate` admitted milliseconds. */
  lemma {:induction false} WindowBound(c: Config, events: seq<Event>, t: int)
    requires c.rate >= 0 && ClockAdvances(events)
    ensures |InWindow(SpecLog(c, events), c.window, t)| <= c.rate
    ensures forall m <- SpecLog(c, events) :: events != [] && m <= events[|events| - 1].now
  {
    if events == [] {
      assert InWindow([], c.window, t) == {};
    } else {
      var init, e := events[..|events| - 1], events[|events| - 1];
      var log := SpecLog(c, init);
      WindowBound(c, init, t);
      if SpecLog(c, events) != log && t - c.window < e.now <= t {
        var before, after := InWindow(log, c.window, e.now), InWindow(log + [e.now], c.window, t);
        assert after <= before + {e.now};
        SubsetSize(after, before + {e.now});
      } else if SpecLog(c, events) != log {
        assert InWindow(log + [e.now], c.window, t) == InWindow(log, c.window, t);
      }
    }
  }

  /** Hence so does the sorted set's own run. */
  lemma AdmittedMillisecondsBound(c: Config, offset: int, events: seq<Event>, t: int)
    requires c.rate >= 0 && c.window >= 1000 && ClockAdvances(events) && ClocksAgree(c, offset, events)
    ensures |InWindow(RunOf(c, events).log, c.window, t)| <= c.rate
  {
    RefinesHistory(c, offset, events);
    WindowBound(c, events, t);
  }

  predicate DistinctLog(log: seq<int>) { forall i, j :: 0 <= i < j < |log| ==> log[i] != log[j] }

  /** How many admitted requests fall in (t - window, t]. */
  function CountInWindow(log: seq<int>, window: nat, t: int): nat
  {
    if log == [] then 0
    else
      var m := log[|log| - 1];
      CountInWindow(log[..|log| - 1], window, t) + (if t - window < m <= t then 1 else 0)
  }

  lemma {:induction false} DistinctCount(log: seq<int>, window: nat, t: int)
    requires DistinctLog(log)
    ensures CountInWindow(log, window, t) == |InWindow(log, window, t)|
  {
    if log == [] {
      assert InWindow(log, window, t) == {};
    } else {
      var init, m := log[..|log| - 1], log[|log| - 1];
      DistinctCount(init, window, t);
      assert forall x :: x in log <==> x in init || x == m;
      assert m !in init;
      assert InWindow(log, window, t) ==
             InWindow(init, window, t) + (if t - window < m <= t then {m} else {});
    }
  }

  /** With distinct request milliseconds, at most `rate` admitted requests in any window. */
  lemma RequestBound(c: Config, offset: int, events: seq<Event>, t: int)
    requires c.rate >= 0 && c.window >= 1000 && ClockAdvances(events) && ClocksAgree(c, offset, events)
    requires DistinctLog(RunOf(c, events).log)
    ensures CountInWindow(RunOf(c, events).log, c.window, t) <= c.rate
  {
    AdmittedMillisecondsBound(c, offset, events, t);
    DistinctCount(RunOf(c, events).log, c.window, t);
  }

  /** With a rate of one or less the admitted milliseconds are always distinct. */
  lemma {:induction false} RateOneIsDistinct(c: Config, events: seq<Event>)
    requires c.rate <= 1 && c.window > 0
    ensures DistinctLog(SpecLog(c, events))
  {
    if events != [] {
      var e, log := events[|events| - 1], SpecLog(c, events[..|events| - 1]);
      RateOneIsDistinct(c, events[..|events| - 1]);
      if SpecLog(c, events) != log {
        assert InWindow(log, c.window, e.now) == {};
        assert e.now !in InWindow(log, c.window, e.now);
      }
    }
  }

  function Repeated(e: Event, n: nat): seq<Event> { seq(n, i => e) }

  lemma SameMillisecondStep(c: Config, now: nat, r: Run)
    requires c.rate >= 2 && c.window >= 1000
    requires r.bucket == EMPTY || r.bucket == Bucket({now}, Some(now + Ttl(c)))
    ensures NextRun(c, r, Request(now, now)) == Run(Bucket({now}, Some(now + Ttl(c))), r.log + [now])
  {
    var pruned := RemoveUpTo(Touch(r.bucket, now), now - c.window);
    assert pruned.members == r.bucket.members;
    assert |pruned.members| <= 1;
    assert pruned.members + {now} == {now};
  }

  /** Requests in one millisecond share one entry: from a rate of two on, any number pass. */
  lemma {:induction false} SameMillisecondPasses(c: Config, now: nat, n: nat)
    requires c.rate >= 2 && c.window >= 1000
    ensures RunOf(c, Repeated(Request(now, now), n)).log == seq(n, i => now)
    ensures RunOf(c, Repeated(Request(now, now), n)).bucket ==
            if n == 0 then EMPTY else Bucket({now}, Some(now + Ttl(c)))
  {
    hide NextRun;
    if n > 0 {
      var e := Request(now, now);
      SameMillisecondPasses(c, now, n - 1);
      assert Repeated(e, n)[..n - 1] == Repeated(e, n - 1);
      SameMillisecondStep(c, now, RunOf(c, Repeated(e, n - 1)));
      assert seq(n, i => now) == seq(n - 1, i => now) + [now];
    }
  }

  lemma {:induction false} CountRepeated(now: int, n: nat, window: nat)
    requires window > 0
    ensures CountInWindow(seq(n, i => now), window, now) == n
  {
    if n > 0 {
      CountRepeated(now, n - 1, window);
      assert seq(n, i => now)[..n - 1] == seq(n - 1, i => now);
    }
  }

  ghost predicate BoundsRequests(c: Config)
  {
    forall events, t :: ClockAdvances(events) && ClocksAgree(c, 0, events) ==>
      CountInWindow(RunOf(c, events).log, c.window, t) <= c.rate
  }

  /** So the bound on requests, rather than on milliseconds, holds of every run exactly when
      the rate is one or nothing. */
  lemma RequestBoundExactly(c: Config)
    requires c.rate >= 0 && c.window >= 1000
    ensures BoundsRequests(c) <==> c.rate <= 1
  {
    if c.rate <= 1 {
      forall events, t | ClockAdvances(events) && ClocksAgree(c, 0, events)
        ensures CountInWindow(RunOf(c, events).log, c.window, t) <= c.rate
      {
        RefinesHistory(c, 0, events);
        RateOneIsDistinct(c, events);
        RequestBound(c, 0, events, t);
      }
    } else {
      OneTooMany(c);
    }
  }

  lemma OneTooMany(c: Config)
    requires c.rate >= 2 && c.window >= 1000
    ensures !BoundsRequests(c)
  {
    hide RunOf, CountInWindow;
    var n := c.rate + 1;
    var events := Repeated(Request(0, 0), n);
    SameMillisecondPasses(c, 0, n);
    CountRepeated(0, n, c.window);
    assert ClockAdvances(events) && ClocksAgree(c, 0, events);
  }

  /** Under any clocks at all, the set never grows beyond the rate. */
  lemma {:induction false} SizeNeverExceedsRate(c: Config, events: seq<Event>)
    requires c.rate >= 0
    ensures |RunOf(c, events).bucket.members| <= c.rate
  {
    if events != [] {
      var init, e := events[..|events| - 1], events[|events| - 1];
      SizeNeverExceedsRate(c, init);
      var b := RunOf(c, init).bucket;
      var pruned := RemoveUpTo(Touch(b, e.at), e.now - c.window);
      SubsetSize(pruned.members, b.members);
    }
  }

  /** The whole-second arithmetic of the expiry needs a window of at least a second: below
      that the key is deleted as soon as it is written, and every request passes. */
  lemma {:induction false} SubSecondWindowNeverLimits(c: Config, events: seq<Event>)
    requires c.window < 1000 && c.rate >= 1
    ensures RunOf(c, events).bucket == EMPTY
    ensures forall e: Event :: e.Request? ==> RunOf(c, events + [e]).log == RunOf(c, events).log + [e.now]
  {
    if events != [] {
      SubSecondWindowNeverLimits(c, events[..|events| - 1]);
      assert events == events[..|events| - 1] + [events[|events| - 1]];
    }
    forall e: Event | e.Request? ensures RunOf(c, events + [e]).log == RunOf(c, events).log + [e.now] {
      assert (events + [e])[..|events|] == events;
    }
  }

  // ------------------------------------------------------------ the expiry

  /** After an admitted request the key lives for twice the window's whole seconds. */
  lemma KeyLivesExactly(c: Config, b: Bucket, now: int, at: int, t: int)
    requires c.window >= 1000 && c.window % 1000 == 0 && AllowStep(c, b, now, at).1 && at <= t
    ensures now in Touch(AllowStep(c, b, now, at).0, t).members <==> t <= at + 2 * c.window
    ensures t > at + 2 * c.window ==> Touch(AllowStep(c, b, now, at).0, t) == EMPTY
  {
    var seconds := c.window / 1000;
    assert c.window == 1000 * seconds && Ttl(c) == 2 * c.window;
  }
}
