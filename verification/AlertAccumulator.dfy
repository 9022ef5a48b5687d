/** Amounts accumulated per time window in Redis hashes (common/alert/accumulator.go): three
    pipelined commands per Add, which other clients' commands may come between.
    Clocks are in milliseconds, windows in seconds, amounts exact. */
module AlertAccumulator {
  import opened Numerals

  // --------------------------------------------------------------- windows

  /** Seconds from the zero time, 1 January of year 1, to the Unix epoch. */
  const ZERO_TIME := 62135596800

  lemma ZeroTimeIsYearOne()
    ensures ZERO_TIME == (DaysBefore(1970) - DaysBefore(1)) * 86_400
  {
  }

  /** Unix second at which the window around `now` begins: Truncate rounds down, counting from
      the zero time; a window that is not positive leaves the time alone. */
  function WindowStart(window: int, now: int): int
  {
    var seconds := now / 1000;
    if window <= 0 then seconds else seconds - (seconds + ZERO_TIME) % window
  }

  function BucketKey(config: int, start: int): string
  {
    "alert:amount:" + IntToString(config) + ":" + IntToString(start)
  }

  /** The window's end and five minutes more, in milliseconds. */
  function Expiry(window: int, now: int): int { (WindowStart(window, now) + window + 300) * 1000 }

  predicate InWindow(window: int, start: int, t: int) { start * 1000 <= t < (start + window) * 1000 }

  /** Two boundaries less than a window apart are one. */
  lemma BoundariesApart(a: int, b: int, w: int)
    requires w > 0 && a % w == 0 && b % w == 0 && a <= b < a + w
    ensures a == b
  {
    assert b == w * (a / w) + (b - a);
    DivisionUnique(b, w, a / w, b - a);
  }

  /** The windows tile time: every instant lies in its own window, and in no other window
      that starts at a window boundary. */
  lemma WindowsTile(window: int, t: int, start: int)
    requires window > 0
    ensures InWindow(window, WindowStart(window, t), t)
    ensures (start + ZERO_TIME) % window == 0 && InWindow(window, start, t) <==> start == WindowStart(window, t)
  {
    var own, z := WindowStart(window, t) + ZERO_TIME, t / 1000 + ZERO_TIME;
    assert own == window * (z / window) + 0;
    DivisionUnique(own, window, z / window, 0);
    var other := start + ZERO_TIME;
    if other % window == 0 && InWindow(window, start, t) {
      if other <= own {
        BoundariesApart(other, own, window);
      } else {
        BoundariesApart(own, other, window);
      }
    }
  }

  /** Position of the first colon. */
  function FirstColon(s: string): nat { if s == "" || s[0] == ':' then 0 else 1 + FirstColon(s[1..]) }

  lemma {:induction false} FirstColonIs(a: string, b: string)
    requires NoColon(a)
    ensures FirstColon(a + ":" + b) == |a|
  {
    if a == "" {
      assert a + ":" + b == ":" + b;
    } else {
      assert (a + ":" + b)[1..] == a[1..] + ":" + b;
      FirstColonIs(a[1..], b);
    }
  }

  predicate NoColon(s: string) { forall i :: 0 <= i < |s| ==> s[i] != ':' }

  lemma ColonSplits(a: string, b: string, c: string, d: string)
    requires NoColon(a) && NoColon(c) && a + ":" + b == c + ":" + d
    ensures a == c && b == d
  {
    var s := a + ":" + b;
    FirstColonIs(a, b);
    FirstColonIs(c, d);
    assert a == s[..|a|] && c == s[..|c|] && b == s[|a| + 1..] && d == s[|c| + 1..];
  }

  lemma DigitsHaveNoColon(n: int)
    ensures NoColon(IntToString(n))
  {
  }

  /** Two additions share a bucket exactly when they share the configuration and the start. */
  lemma BucketKeysExactly(config: int, start: int, config': int, start': int)
    ensures BucketKey(config, start) == BucketKey(config', start') <==> config == config' && start == start'
  {
    hide IntToString;
    if BucketKey(config, start) == BucketKey(config', start') {
      DigitsHaveNoColon(config);
      DigitsHaveNoColon(config');
      var a, b, c, d := IntToString(config), IntToString(start), IntToString(config'), IntToString(start');
      assert BucketKey(config, start)[13..] == a + ":" + b;
      assert BucketKey(config', start')[13..] == c + ":" + d;
      ColonSplits(a, b, c, d);
      ParseIntToString(config);
      ParseIntToString(config');
      ParseIntToString(start);
      ParseIntToString(start');
    }
  }

  // ---------------------------------------------------------------- server

  /** One hash: its two fields, if set, and its expiry. */
  datatype Bucket = Bucket(total: Option<real>, count: Option<int>, expireAt: Option<int>)

  type Server = map<string, Bucket>

  const FRESH := Bucket(None, None, None)

  function Get(s: Server, key: string, at: int): Bucket
  {
    if key in s && !(s[key].expireAt.Some? && at > s[key].expireAt.value) then s[key] else FRESH
  }

  datatype Command = IncrAmount(key: string, amount: real) | IncrCount(key: string) | ExpireAt(key: string, time: int)

  /** One command, at server time `at`, which first forgets an expired key. Expiring a key in
      the past deletes it; a missing key is not created. */
  function Exec(s: Server, c: Command, at: int): Server
  {
    var b := Get(s, c.key, at);
    match c
    case IncrAmount(key, amount) =>
      s[key := b.(total := Some((if b.total.Some? then b.total.value else 0.0) + amount))]
    case IncrCount(key) =>
      s[key := b.(count := Some((if b.count.Some? then b.count.value else 0) + 1))]
    case ExpireAt(key, time) =>
      if b == FRESH || time <= at then s - {key} else s[key := b.(expireAt := Some(time))]
  }

  datatype Report = Report(total: real, count: int)

  /** What GetTotal reads: nothing without a total. */
  function Read(s: Server, key: string, at: int): Report
  {
    var b := Get(s, key, at);
    if b.total.None? then Report(0.0, 0) else Report(b.total.value, if b.count.Some? then b.count.value else 0)
  }

  // ---------------------------------------------------------------- adds

  /** A call of Add: its configuration with its window, the amount and the caller's clock. */
  datatype Addition = Addition(config: int, window: int, amount: real, now: int)

  function KeyOf(a: Addition): string { BucketKey(a.config, WindowStart(a.window, a.now)) }

  function CommandOf(a: Addition, i: nat): Command
    requires i < 3
  {
    if i == 0 then IncrAmount(KeyOf(a), a.amount)
    else if i == 1 then IncrCount(KeyOf(a))
    else ExpireAt(KeyOf(a), Expiry(a.window, a.now))
  }

  class Accumulator {
    var server: Server

    constructor ()
      ensures server == map[]
    {
      server := map[];
    }

    method Execute(c: Command, at: int)
      modifies this
      ensures server == Exec(old(server), c, at)
    {
      server := Exec(server, c, at);
    }

    /** The pipeline run without anyone in between, and what it reports. */
    method Add(config: int, window: int, amount: real, now: int, at: int) returns (total: real, count: int)
      modifies this
      ensures var a := Addition(config, window, amount, now);
              var before := Get(old(server), KeyOf(a), at);
              total == (if before.total.Some? then before.total.value else 0.0) + amount &&
              count == (if before.count.Some? then before.count.value else 0) + 1 &&
              server == Exec(Exec(Exec(old(server), CommandOf(a, 0), at), CommandOf(a, 1), at), CommandOf(a, 2), at)
    {
      var start := WindowStart(window, now);
      var end := start + window;
      var key := BucketKey(config, start);
      Execute(IncrAmount(key, amount), at);
      total := Get(server, key, at).total.value;
      Execute(IncrCount(key), at);
      count := Get(server, key, at).count.value;
      Execute(ExpireAt(key, (end + 300) * 1000), at);
    }

    method GetTotal(config: int, window: int, now: int, at: int) returns (total: real, count: int)
      ensures Report(total, count) == Read(server, BucketKey(config, WindowStart(window, now)), at)
    {
      var b := Get(server, BucketKey(config, WindowStart(window, now)), at);
      if b.total.None? {
        return 0.0, 0;
      }
      total := b.total.value;
      count := if b.count.Some? then b.count.value else 0;
    }
  }

  // ------------------------------------------------------------------ runs

  /** The server executes the next command of one of the adds. */
  datatype Tick = Tick(add: nat, at: int)

  /** The server, and how many commands of every add it has executed. */
  datatype Run = Run(server: Server, done: seq<nat>)

  function RunOf(adds: seq<Addition>, ticks: seq<Tick>): (r: Run)
    ensures |r.done| == |adds|
  {
    if ticks == [] then Run(map[], seq(|adds|, i => 0))
    else NextRun(adds, RunOf(adds, ticks[..|ticks| - 1]), ticks[|ticks| - 1])
  }

  function NextRun(adds: seq<Addition>, r: Run, t: Tick): (n: Run)
    requires |r.done| == |adds|
    ensures |n.done| == |adds|
  {
    if t.add >= |adds| || r.done[t.add] >= 3 then r
    else Run(Exec(r.server, CommandOf(adds[t.add], r.done[t.add]), t.at), r.done[t.add := r.done[t.add] + 1])
  }

  /** The specification: amounts of the adds to one bucket that are past their first command. */
  function AmountIn(adds: seq<Addition>, done: seq<nat>, key: string): real
    requires |adds| == |done|
  {
    if adds == [] then 0.0
    else
      var n := |adds| - 1;
      AmountIn(adds[..n], done[..n], key) + (if KeyOf(adds[n]) == key && done[n] >= 1 then adds[n].amount else 0.0)
  }

  function CountIn(adds: seq<Addition>, done: seq<nat>, key: string, level: nat): nat
    requires |adds| == |done|
  {
    if adds == [] then 0
    else
      var n := |adds| - 1;
      CountIn(adds[..n], done[..n], key, level) + (if KeyOf(adds[n]) == key && done[n] >= level then 1 else 0)
  }

  lemma {:induction false} StepSums(adds: seq<Addition>, done: seq<nat>, i: nat, key: string)
    requires |adds| == |done| && i < |adds|
    ensures var next, hit := done[i := done[i] + 1], KeyOf(adds[i]) == key;
            AmountIn(adds, next, key) ==
            AmountIn(adds, done, key) + (if hit && done[i] == 0 then adds[i].amount else 0.0) &&
            CountIn(adds, next, key, 1) == CountIn(adds, done, key, 1) + (if hit && done[i] == 0 then 1 else 0) &&
            CountIn(adds, next, key, 2) == CountIn(adds, done, key, 2) + (if hit && done[i] == 1 then 1 else 0)
  {
    hide KeyOf;
    var n, next := |adds| - 1, done[i := done[i] + 1];
    if i < n {
      StepSums(adds[..n], done[..n], i, key);
      assert next[..n] == done[..n][i := done[i] + 1];
    } else {
      assert next[..n] == done[..n];
    }
  }

  lemma {:induction false} NothingStarted(adds: seq<Addition>, key: string)
    ensures var none := seq(|adds|, i => 0);
            AmountIn(adds, none, key) == 0.0 && CountIn(adds, none, key, 1) == 0 && CountIn(adds, none, key, 2) == 0
  {
    if adds != [] {
      var n := |adds| - 1;
      NothingStarted(adds[..n], key);
      assert seq(|adds|, i => 0)[..n] == seq(n, i => 0);
    }
  }

  /** Every configuration keeps one window length. */
  predicate FixedWindows(adds: seq<Addition>)
  {
    (forall i :: 0 <= i < |adds| ==> adds[i].window > 0) &&
    (forall i, j :: 0 <= i < |adds| && 0 <= j < |adds| && adds[i].config == adds[j].config ==>
       adds[i].window == adds[j].window)
  }

  predicate Positive(adds: seq<Addition>) { forall i :: 0 <= i < |adds| ==> adds[i].window > 0 }

  /** Every command reaches the server at most `late` milliseconds after its caller's clock. */
  predicate Prompt(adds: seq<Addition>, ticks: seq<Tick>, late: int)
  {
    forall i :: 0 <= i < |ticks| && ticks[i].add < |adds| ==> ticks[i].at <= adds[ticks[i].add].now + late
  }

  /** Where adds share a bucket, none can arrive after another's expiry. */
  predicate Safe(adds: seq<Addition>, late: int)
  {
    forall i, j :: 0 <= i < |adds| && 0 <= j < |adds| && KeyOf(adds[i]) == KeyOf(adds[j]) ==>
      adds[j].now + late <= Expiry(adds[i].window, adds[i].now)
  }

  /** A command sent inside a window and arriving within five minutes finds the bucket alive. */
  lemma PromptIsBeforeExpiry(window: int, now: int, at: int)
    requires window > 0 && at <= now + 300000
    ensures at < Expiry(window, now)
  {
    WindowsTile(window, now, WindowStart(window, now));
  }

  /** Fixed windows are safe up to five minutes. */
  lemma FixedIsSafe(adds: seq<Addition>)
    requires FixedWindows(adds)
    ensures Positive(adds) && Safe(adds, 300000)
  {
    forall i, j | 0 <= i < |adds| && 0 <= j < |adds| && KeyOf(adds[i]) == KeyOf(adds[j])
      ensures adds[j].now + 300000 <= Expiry(adds[i].window, adds[i].now)
    {
      var a, b := adds[i], adds[j];
      BucketKeysExactly(a.config, WindowStart(a.window, a.now), b.config, WindowStart(b.window, b.now));
      PromptIsBeforeExpiry(b.window, b.now, b.now + 300000);
    }
  }

  /** One bucket holds the exact sum and count of the commands executed for it. */
  ghost predicate Tallies(adds: seq<Addition>, r: Run, key: string)
  {
    |adds| == |r.done| &&
    (key in r.server <==> CountIn(adds, r.done, key, 1) > 0) &&
    (key !in r.server ==> AmountIn(adds, r.done, key) == 0.0 && CountIn(adds, r.done, key, 2) == 0) &&
    (key in r.server ==>
       r.server[key].total == Some(AmountIn(adds, r.done, key)) &&
       CountOf(r.server[key]) == CountIn(adds, r.done, key, 2))
  }

  function CountOf(b: Bucket): int { if b.count.Some? then b.count.value else 0 }

  /** Besides, its expiry is that of an add to it. */
  ghost predicate Exact(adds: seq<Addition>, r: Run, key: string)
  {
    Tallies(adds, r, key) &&
    (key in r.server && r.server[key].expireAt.Some? ==>
       exists i :: 0 <= i < |adds| && KeyOf(adds[i]) == key &&
                   r.server[key].expireAt.value == Expiry(adds[i].window, adds[i].now))
  }

  /** An add that has come far enough is counted. */
  lemma {:induction false} StartedCounts(adds: seq<Addition>, done: seq<nat>, i: nat, level: nat)
    requires |adds| == |done| && i < |adds| && done[i] >= level
    ensures CountIn(adds, done, KeyOf(adds[i]), level) > 0
  {
    hide KeyOf;
    var n := |adds| - 1;
    if i < n {
      StartedCounts(adds[..n], done[..n], i, level);
    }
  }

  lemma StepIsExact(adds: seq<Addition>, late: int, r: Run, t: Tick, key: string)
    requires |adds| == |r.done| && Positive(adds) && Safe(adds, late) && late <= 300000 && Exact(adds, r, key)
    requires t.add < |adds| ==> t.at <= adds[t.add].now + late
    ensures Exact(adds, NextRun(adds, r, t), key)
  {
    if t.add < |adds| && r.done[t.add] < 3 {
      if KeyOf(adds[t.add]) == key {
        PromptStep(adds, late, r, t);
        hide Exact, NextRun, KeyOf, Expiry, Get, Safe;
        if r.done[t.add] == 0 {
          AmountStep(adds, r, t);
        } else if r.done[t.add] == 1 {
          CountStep(adds, r, t);
        } else {
          ExpiryStep(adds, r, t);
        }
      } else {
        OtherKeyStep(adds, r, t, key);
      }
    }
  }

  lemma OtherKeyStep(adds: seq<Addition>, r: Run, t: Tick, key: string)
    requires |adds| == |r.done| && Exact(adds, r, key)
    requires t.add < |adds| && r.done[t.add] < 3 && KeyOf(adds[t.add]) != key
    ensures Exact(adds, NextRun(adds, r, t), key)
  {
    hide KeyOf, Expiry, AmountIn, CountIn, Get;
    StepSums(adds, r.done, t.add, key);
    var server := NextRun(adds, r, t).server;
    assert key in server <==> key in r.server;
    assert key in server ==> server[key] == r.server[key];
  }

  /** What the three command steps start from. */
  ghost predicate Ready(adds: seq<Addition>, r: Run, t: Tick, step: nat)
  {
    |adds| == |r.done| && t.add < |adds| && r.done[t.add] == step && Exact(adds, r, KeyOf(adds[t.add])) &&
    t.at < Expiry(adds[t.add].window, adds[t.add].now) &&
    Get(r.server, KeyOf(adds[t.add]), t.at) ==
      if KeyOf(adds[t.add]) in r.server then r.server[KeyOf(adds[t.add])] else FRESH
  }

  lemma AmountStep(adds: seq<Addition>, r: Run, t: Tick)
    requires Ready(adds, r, t, 0)
    ensures Exact(adds, NextRun(adds, r, t), KeyOf(adds[t.add]))
  {
    hide KeyOf, Expiry, AmountIn, CountIn, Get;
    StepSums(adds, r.done, t.add, KeyOf(adds[t.add]));
  }

  lemma CountStep(adds: seq<Addition>, r: Run, t: Tick)
    requires Ready(adds, r, t, 1)
    ensures Exact(adds, NextRun(adds, r, t), KeyOf(adds[t.add]))
  {
    StartedCounts(adds, r.done, t.add, 1);
    hide KeyOf, Expiry, AmountIn, CountIn, Get;
    StepSums(adds, r.done, t.add, KeyOf(adds[t.add]));
  }

  lemma ExpiryStep(adds: seq<Addition>, r: Run, t: Tick)
    requires Ready(adds, r, t, 2)
    ensures Exact(adds, NextRun(adds, r, t), KeyOf(adds[t.add]))
  {
    StartedCounts(adds, r.done, t.add, 1);
    hide KeyOf, Expiry, AmountIn, CountIn, Get;
    StepSums(adds, r.done, t.add, KeyOf(adds[t.add]));
  }

  /** The bucket a prompt command works on has not expired, and its expiry is to come. */
  lemma PromptStep(adds: seq<Addition>, late: int, r: Run, t: Tick)
    requires |adds| == |r.done| && Positive(adds) && Safe(adds, late) && late <= 300000 && t.add < |adds|
    requires Exact(adds, r, KeyOf(adds[t.add])) && t.at <= adds[t.add].now + late
    ensures var a := adds[t.add];
            t.at < Expiry(a.window, a.now) &&
            Get(r.server, KeyOf(a), t.at) == if KeyOf(a) in r.server then r.server[KeyOf(a)] else FRESH
  {
    hide KeyOf, Expiry, Tallies;
    PromptIsBeforeExpiry(adds[t.add].window, adds[t.add].now, t.at);
  }

  /** However the pipelines' commands interleave: where the adds are safe, every bucket holds the
      exact sum and count of what has been executed. */
  lemma {:induction false} InterleavingIsExact(adds: seq<Addition>, late: int, ticks: seq<Tick>, key: string)
    requires Positive(adds) && Safe(adds, late) && late <= 300000 && Prompt(adds, ticks, late)
    ensures Exact(adds, RunOf(adds, ticks), key)
  {
    if ticks == [] {
      NothingStarted(adds, key);
    } else {
      hide Exact, NextRun, Safe;
      InterleavingIsExact(adds, late, ticks[..|ticks| - 1], key);
      StepIsExact(adds, late, RunOf(adds, ticks[..|ticks| - 1]), ticks[|ticks| - 1], key);
    }
  }

  ghost predicate AlwaysExact(adds: seq<Addition>, late: int)
  {
    forall ticks: seq<Tick>, key: string :: Prompt(adds, ticks, late) ==> Tallies(adds, RunOf(adds, ticks), key)
  }

  // ----------------------------------------------------------------- totals

  /** Amount and number of the adds of one configuration whose clock lies in a window. */
  function WindowTotal(adds: seq<Addition>, config: int, window: int, start: int): Report
  {
    if adds == [] then Report(0.0, 0)
    else
      var rest, a := WindowTotal(adds[..|adds| - 1], config, window, start), adds[|adds| - 1];
      if a.config == config && InWindow(window, start, a.now) then Report(rest.total + a.amount, rest.count + 1)
      else rest
  }

  /** An addition goes to the bucket read at `now` exactly when its clock lies in that window. */
  lemma SameBucketExactly(a: Addition, config: int, window: int, now: int)
    requires window > 0 && (a.config == config ==> a.window == window)
    ensures KeyOf(a) == BucketKey(config, WindowStart(window, now)) <==>
            a.config == config && InWindow(window, WindowStart(window, now), a.now)
  {
    hide WindowStart, BucketKey, InWindow;
    BucketKeysExactly(a.config, WindowStart(a.window, a.now), config, WindowStart(window, now));
    BoundaryOfStart(window, now);
    WindowsTile(window, a.now, WindowStart(window, now));
  }

  lemma BoundaryOfStart(window: int, now: int)
    requires window > 0
    ensures (WindowStart(window, now) + ZERO_TIME) % window == 0
  {
    WindowsTile(window, now, WindowStart(window, now));
  }

  lemma {:induction false} FinishedTotals(
      adds: seq<Addition>, done: seq<nat>, config: int, window: int, start: int, key: string)
    requires |adds| == |done| && forall i :: 0 <= i < |adds| ==> done[i] == 3
    requires forall i :: 0 <= i < |adds| ==>
      (KeyOf(adds[i]) == key <==> adds[i].config == config && InWindow(window, start, adds[i].now))
    ensures WindowTotal(adds, config, window, start) == Report(AmountIn(adds, done, key), CountIn(adds, done, key, 2))
  {
    hide InWindow, KeyOf;
    if adds != [] {
      FinishedTotals(adds[..|adds| - 1], done[..|adds| - 1], config, window, start, key);
    }
  }

  lemma {:induction false} FinishedCounts(adds: seq<Addition>, done: seq<nat>, key: string)
    requires |adds| == |done| && forall i :: 0 <= i < |adds| ==> done[i] == 3
    ensures CountIn(adds, done, key, 1) == CountIn(adds, done, key, 2)
  {
    if adds != [] {
      FinishedCounts(adds[..|adds| - 1], done[..|adds| - 1], key);
    }
  }

  /** Once every pipeline has run, GetTotal reports, anywhere inside the window and up to five
      minutes late, exactly the amounts and the number of the adds whose clock fell into it. */
  lemma TotalsAreExact(adds: seq<Addition>, ticks: seq<Tick>, config: int, window: int, now: int, at: int)
    requires FixedWindows(adds) && Prompt(adds, ticks, 300000) && window > 0 && at <= now + 300000
    requires forall i :: 0 <= i < |adds| ==> RunOf(adds, ticks).done[i] == 3
    requires forall i :: 0 <= i < |adds| && adds[i].config == config ==> adds[i].window == window
    ensures Read(RunOf(adds, ticks).server, BucketKey(config, WindowStart(window, now)), at)
            == WindowTotal(adds, config, window, WindowStart(window, now))
  {
    hide WindowStart, BucketKey, RunOf;
    var r, start := RunOf(adds, ticks), WindowStart(window, now);
    var key := BucketKey(config, start);
    FixedIsSafe(adds);
    InterleavingIsExact(adds, 300000, ticks, key);
    forall i | 0 <= i < |adds|
      ensures KeyOf(adds[i]) == key <==> adds[i].config == config && InWindow(window, start, adds[i].now)
    {
      SameBucketExactly(adds[i], config, window, now);
    }
    FinishedTotals(adds, r.done, config, window, start, key);
    FinishedCounts(adds, r.done, key);
    PromptIsBeforeExpiry(window, now, at);
    if key in r.server && r.server[key].expireAt.Some? {
      var i :| 0 <= i < |adds| && KeyOf(adds[i]) == key &&
        r.server[key].expireAt.value == Expiry(adds[i].window, adds[i].now);
      BucketKeysExactly(adds[i].config, WindowStart(adds[i].window, adds[i].now), config, start);
    }
  }

  /** Halfway through, the count may lag behind the amounts but never runs ahead. */
  lemma {:induction false} CountNeverAhead(adds: seq<Addition>, done: seq<nat>, key: string)
    requires |adds| == |done|
    ensures CountIn(adds, done, key, 2) <= CountIn(adds, done, key, 1)
  {
    if adds != [] {
      CountNeverAhead(adds[..|adds| - 1], done[..|adds| - 1], key);
    }
  }

  // ------------------------------------------------ changed window lengths

  lemma RunExtends(adds: seq<Addition>, ticks: seq<Tick>, t: Tick)
    ensures RunOf(adds, ticks + [t]) == NextRun(adds, RunOf(adds, ticks), t)
  {
    assert (ticks + [t])[..|ticks|] == ticks;
  }

  lemma WholePipeline(adds: seq<Addition>, ticks: seq<Tick>, i: nat, at: int)
    requires i < |adds| && RunOf(adds, ticks).done[i] == 0
    ensures var s, t, a := RunOf(adds, ticks).server, Tick(i, at), adds[i];
            RunOf(adds, ticks + [t, t, t]) ==
            Run(Exec(Exec(Exec(s, CommandOf(a, 0), at), CommandOf(a, 1), at), CommandOf(a, 2), at),
                RunOf(adds, ticks).done[i := 3])
  {
    hide CommandOf, Exec, RunOf;
    var t := Tick(i, at);
    RunExtends(adds, ticks, t);
    RunExtends(adds, ticks + [t], t);
    RunExtends(adds, ticks + [t] + [t], t);
    assert ticks + [t] + [t] + [t] == ticks + [t, t, t];
  }

  lemma FirstPipeline(adds: seq<Addition>, i: nat)
    requires i < |adds| && adds[i].window > 0
    ensures var a, t := adds[i], Tick(i, adds[i].now);
            RunOf(adds, [t, t, t]) ==
            Run(map[KeyOf(a) := Bucket(Some(a.amount), Some(1), Some(Expiry(a.window, a.now)))],
                seq(|adds|, k => 0)[i := 3])
  {
    hide KeyOf, Expiry, RunOf;
    var a, t := adds[i], Tick(i, adds[i].now);
    PromptIsBeforeExpiry(a.window, a.now, a.now);
    NothingYet(adds);
    WholePipeline(adds, [], i, a.now);
    assert [] + [t, t, t] == [t, t, t];
  }

  lemma NothingYet(adds: seq<Addition>)
    ensures RunOf(adds, []) == Run(map[], seq(|adds|, k => 0))
  {
  }

  /** An add that may arrive after another's expiry: when it does, the other one's count is lost. */
  lemma UnsafeLosesCount(adds: seq<Addition>, late: int, i: nat, j: nat) returns (ticks: seq<Tick>)
    requires Positive(adds) && 0 <= late <= 300000 && i < |adds| && j < |adds| && KeyOf(adds[i]) == KeyOf(adds[j])
    requires adds[j].now + late > Expiry(adds[i].window, adds[i].now)
    ensures Prompt(adds, ticks, late) && !Tallies(adds, RunOf(adds, ticks), KeyOf(adds[i]))
  {
    hide KeyOf, Expiry, RunOf;
    var a, b, key := adds[i], adds[j], KeyOf(adds[i]);
    PromptIsBeforeExpiry(a.window, a.now, a.now + late);
    FirstPipeline(adds, i);
    var t, u := Tick(i, a.now), Tick(j, b.now + late);
    ticks := [t, t, t] + [u];
    RunExtends(adds, [t, t, t], u);
    var r := RunOf(adds, ticks);
    assert r.server[key] == Bucket(Some(0.0 + b.amount), None, None);
    assert r.done[i] == 3;
    StartedCounts(adds, r.done, i, 2);
  }

  /** The exact condition: whatever the interleaving and the delays up to `late`, every bucket is
      exact, if and only if no add can arrive after the expiry of another one to its bucket. */
  lemma AlwaysExactly(adds: seq<Addition>, late: int)
    requires Positive(adds) && 0 <= late <= 300000
    ensures AlwaysExact(adds, late) <==> Safe(adds, late)
  {
    hide Tallies, RunOf, KeyOf, Expiry;
    if Safe(adds, late) {
      forall ticks: seq<Tick>, key: string | Prompt(adds, ticks, late) ensures Tallies(adds, RunOf(adds, ticks), key) {
        InterleavingIsExact(adds, late, ticks, key);
      }
    } else {
      var i, j :| 0 <= i < |adds| && 0 <= j < |adds| && KeyOf(adds[i]) == KeyOf(adds[j]) &&
        adds[j].now + late > Expiry(adds[i].window, adds[i].now);
      var ticks := UnsafeLosesCount(adds, late, i, j);
    }
  }

  /** No length in use exceeds another by more than the five minutes leave after the delay, all
      in seconds. */
  ghost predicate Close(lengths: iset<int>, late: int)
  {
    forall short, long :: short in lengths && long in lengths ==> long <= short + 300 - late
  }

  ghost predicate Uses(adds: seq<Addition>, lengths: iset<int>)
  {
    forall i :: 0 <= i < |adds| ==> adds[i].window in lengths
  }

  /** What a read finds, at most `late` milliseconds after its clock, is the sum and count so far. */
  ghost predicate ReadsExact(adds: seq<Addition>, lengths: iset<int>, late: int)
  {
    forall ticks: seq<Tick>, config: int, window: int, now: int, at: int ::
      window in lengths && Prompt(adds, ticks, late) && at <= now + late ==>
        Read(RunOf(adds, ticks).server, BucketKey(config, WindowStart(window, now)), at) ==
        ExecutedIn(adds, RunOf(adds, ticks).done, BucketKey(config, WindowStart(window, now)))
  }

  function ExecutedIn(adds: seq<Addition>, done: seq<nat>, key: string): Report
    requires |adds| == |done|
  {
    Report(AmountIn(adds, done, key), CountIn(adds, done, key, 2))
  }

  /** A clock in one window reaches a bucket of the same start before it expires. */
  lemma CloseMeetsExpiry(a: Addition, config: int, window: int, now: int, late: int)
    requires a.window > 0 && window > 0 && window <= a.window + 300 - late
    requires KeyOf(a) == BucketKey(config, WindowStart(window, now))
    ensures now + 1000 * late <= Expiry(a.window, a.now)
  {
    BucketKeysExactly(a.config, WindowStart(a.window, a.now), config, WindowStart(window, now));
    WindowsTile(window, now, WindowStart(window, now));
  }

  lemma CloseIsSafe(adds: seq<Addition>, lengths: iset<int>, late: int)
    requires Positive(adds) && Uses(adds, lengths) && Close(lengths, late)
    ensures Safe(adds, 1000 * late)
  {
    hide Expiry;
    forall i, j | 0 <= i < |adds| && 0 <= j < |adds| && KeyOf(adds[i]) == KeyOf(adds[j])
      ensures adds[j].now + 1000 * late <= Expiry(adds[i].window, adds[i].now)
    {
      CloseMeetsExpiry(adds[i], adds[j].config, adds[j].window, adds[j].now, late);
    }
  }

  /** A read in time finds the exact sum and count. */
  lemma ReadIsExact(
      adds: seq<Addition>, lengths: iset<int>, late: int, ticks: seq<Tick>, config: int, window: int, now: int, at: int)
    requires Positive(adds) && Uses(adds, lengths) && Close(lengths, late) && 0 <= late <= 300
    requires window in lengths && window > 0 && Prompt(adds, ticks, 1000 * late) && at <= now + 1000 * late
    ensures var key := BucketKey(config, WindowStart(window, now));
            Read(RunOf(adds, ticks).server, key, at) == ExecutedIn(adds, RunOf(adds, ticks).done, key)
  {
    hide RunOf, KeyOf, Expiry, BucketKey, WindowStart;
    var key := BucketKey(config, WindowStart(window, now));
    CloseIsSafe(adds, lengths, late);
    InterleavingIsExact(adds, 1000 * late, ticks, key);
    forall i | 0 <= i < |adds| && KeyOf(adds[i]) == key ensures at <= Expiry(adds[i].window, adds[i].now) {
      CloseMeetsExpiry(adds[i], config, window, now, late);
    }
  }

  /** Two lengths too far apart: a start they share, the first instant of the short window and the
      last of the long one. */
  lemma SharedStart(short: int, long: int, late: int) returns (start: int)
    requires short > 0 && long > 0 && long > short + 300 - late
    ensures WindowStart(short, start * 1000) == start && WindowStart(long, (start + long) * 1000 - 1) == start
    ensures (start + long) * 1000 - 1 + 1000 * late > Expiry(short, start * 1000)
  {
    start := short * long - ZERO_TIME;
    DivisionUnique(start + ZERO_TIME, short, long, 0);
    assert start + ZERO_TIME == long * short + 0;
    DivisionUnique(start + ZERO_TIME, long, short, 0);
    WindowsTile(short, start * 1000, start);
    WindowsTile(long, (start + long) * 1000 - 1, start);
  }

  /** Over all adds and runs: sums and counts are exact if and only if the lengths in use are
      close; where they are not, a run loses a count. */
  lemma LengthsExactly(lengths: iset<int>, late: int)
    requires 0 <= late <= 300 && forall w <- lengths :: w > 0
    ensures (forall adds: seq<Addition> :: Uses(adds, lengths) ==> AlwaysExact(adds, 1000 * late)) <==>
            Close(lengths, late)
  {
    hide AlwaysExact, Safe, WindowStart, Expiry;
    if Close(lengths, late) {
      forall adds: seq<Addition> | Uses(adds, lengths) ensures AlwaysExact(adds, 1000 * late) {
        CloseIsSafe(adds, lengths, late);
        AlwaysExactly(adds, 1000 * late);
      }
    } else {
      var short, long :| short in lengths && long in lengths && long > short + 300 - late;
      var adds := FarAdds(short, long, late);
      assert Uses(adds, lengths);
      AlwaysExactly(adds, 1000 * late);
    }
  }

  lemma FarAdds(short: int, long: int, late: int) returns (adds: seq<Addition>)
    requires short > 0 && long > 0 && long > short + 300 - late
    ensures |adds| == 2 && adds[0].window == short && adds[1].window == long && !Safe(adds, 1000 * late)
  {
    hide WindowStart, Expiry;
    var start := SharedStart(short, long, late);
    adds := [Addition(1, short, 5.0, start * 1000), Addition(1, long, 7.0, (start + long) * 1000 - 1)];
    assert KeyOf(adds[0]) == KeyOf(adds[1]);
  }

  /** The same condition decides reads: sums and counts are read exactly if and only if the lengths
      in use are close; where they are not, a read inside the long window finds nothing. */
  lemma ReadsExactly(lengths: iset<int>, late: int)
    requires 0 <= late <= 300 && forall w <- lengths :: w > 0
    ensures (forall adds: seq<Addition> :: Uses(adds, lengths) ==> ReadsExact(adds, lengths, 1000 * late)) <==>
            Close(lengths, late)
  {
    hide WindowStart, Expiry, RunOf, Read, BucketKey, ExecutedIn;
    if Close(lengths, late) {
      forall adds: seq<Addition>, ticks: seq<Tick>, config: int, window: int, now: int, at: int |
          Uses(adds, lengths) && window in lengths && Prompt(adds, ticks, 1000 * late) && at <= now + 1000 * late
        ensures Read(RunOf(adds, ticks).server, BucketKey(config, WindowStart(window, now)), at) ==
                ExecutedIn(adds, RunOf(adds, ticks).done, BucketKey(config, WindowStart(window, now)))
      {
        ReadIsExact(adds, lengths, late, ticks, config, window, now, at);
      }
    } else {
      var short, long :| short in lengths && long in lengths && long > short + 300 - late;
      var adds, ticks, now := FarRead(short, long, late);
      assert Uses(adds, lengths) && !ReadsExact(adds, lengths, 1000 * late);
    }
  }

  lemma FarRead(short: int, long: int, late: int) returns (adds: seq<Addition>, ticks: seq<Tick>, now: int)
    requires 0 <= late && short > 0 && long > 0 && long > short + 300 - late
    ensures |adds| == 1 && adds[0].window == short && Prompt(adds, ticks, 1000 * late)
    ensures var key := BucketKey(1, WindowStart(long, now));
            Read(RunOf(adds, ticks).server, key, now + 1000 * late) != ExecutedIn(adds, RunOf(adds, ticks).done, key)
  {
    hide WindowStart, Expiry, RunOf;
    var start := SharedStart(short, long, late);
    now := (start + long) * 1000 - 1;
    adds := [Addition(1, short, 5.0, start * 1000)];
    var t := Tick(0, start * 1000);
    ticks := [t, t, t];
    FirstPipeline(adds, 0);
    StartedCounts(adds, RunOf(adds, ticks).done, 0, 2);
  }

  /** So shortening a configuration's window from an hour to a minute can lose the hour's sum. */
  lemma ShortenedWindowLosesSum()
    ensures var adds := [Addition(1, 3600, 5.0, 0), Addition(1, 60, 7.0, 1000)];
            var ticks := [Tick(0, 0), Tick(0, 0), Tick(0, 0), Tick(1, 1000), Tick(1, 1000), Tick(1, 1000)];
            Read(RunOf(adds, ticks).server, KeyOf(adds[0]), 1200000) == Report(0.0, 0) &&
            InWindow(3600, WindowStart(3600, 0), 1200000)
  {
    hide RunOf, IntToString;
    var a, b := Addition(1, 3600, 5.0, 0), Addition(1, 60, 7.0, 1000);
    var adds, t0, t1 := [a, b], Tick(0, 0), Tick(1, 1000);
    assert WindowStart(3600, 0) == 0 && WindowStart(60, 1000) == 0;
    FirstPipeline(adds, 0);
    WholePipeline(adds, [t0, t0, t0], 1, 1000);
    assert [t0, t0, t0] + [t1, t1, t1] == [t0, t0, t0, t1, t1, t1];
  }
}
