/** The ID generator (common/utils/snowflake.go): 41 bits of milliseconds, 10 bits of machine,
    12 bits of sequence. Clock readings are an input; the mutex makes each call one step. */
module Snowflake {
  import opened Numerals

  const EPOCH := 1609459200000
  const MAX_MACHINE_ID := 1023
  const MAX_SEQUENCE := 4095
  const MACHINE_SHIFT := 12
  const TIMESTAMP_SHIFT := 22
  const TWO22 := 0x40_0000
  const TWO41 := 0x200_0000_0000
  const TWO42 := 0x400_0000_0000
  const TWO63 := 0x8000_0000_0000_0000
  const TWO64 := 0x1_0000_0000_0000_0000

  /** Time counts from the beginning of 2021, in milliseconds. */
  lemma EpochIs2021()
    ensures EPOCH == (DaysBefore(2021) - DaysBefore(1970)) * 86_400_000
  {
  }

  // --------------------------------------------------------- int64 arithmetic

  function ToUnsigned(x: int): nat { x % TWO64 }

  function ToInt64(x: int): int
  {
    var u := x % TWO64;
    if u < TWO63 then u else u - TWO64
  }

  function Doubled(x: int, k: nat): int { if k == 0 then x else 2 * Doubled(x, k - 1) }

  function ShiftLeft(x: int, k: nat): int { ToInt64(Doubled(x, k)) }

  function BitOr(a: nat, b: nat): nat
  {
    if a == 0 && b == 0 then 0
    else 2 * BitOr(a / 2, b / 2) + (if a % 2 == 1 || b % 2 == 1 then 1 else 0)
  }

  function Or64(a: int, b: int): int { ToInt64(BitOr(ToUnsigned(a), ToUnsigned(b))) }

  /** Lines 98-100: the three fields shifted and or-ed together. */
  function Assemble(now: int, machine: int, sequence: int): int
  {
    Or64(Or64(ShiftLeft(now - EPOCH, TIMESTAMP_SHIFT), ShiftLeft(machine, MACHINE_SHIFT)), sequence)
  }

  predicate InFields(machine: int, sequence: int)
  {
    0 <= machine <= MAX_MACHINE_ID && 0 <= sequence <= MAX_SEQUENCE
  }

  lemma {:induction false} OrZero(a: nat)
    ensures BitOr(a, 0) == a
  {
    if a != 0 {
      OrZero(a / 2);
    }
  }

  /** With k low bits clear, or-ing in fewer than k bits is adding them. */
  lemma {:induction false} OrIsSum(h: nat, k: nat, b: nat)
    requires b < Doubled(1, k)
    ensures Doubled(h, k) >= 0
    ensures BitOr(Doubled(h, k), b) == Doubled(h, k) + b
  {
    if k == 0 {
      OrZero(h);
    } else {
      OrIsSum(h, k - 1, b / 2);
    }
  }

  lemma {:induction false} DoubledAdd(x: int, a: nat, b: nat)
    ensures Doubled(x, a + b) == Doubled(Doubled(x, a), b)
  {
    if b > 0 {
      DoubledAdd(x, a, b - 1);
    }
  }

  lemma Doubled4(x: int)
    ensures Doubled(x, 4) == 16 * x
  {
    DoubledAdd(x, 2, 2);
    assert Doubled(x, 1) == 2 * x && Doubled(Doubled(x, 2), 1) == 2 * Doubled(x, 2);
  }

  lemma Doubled12(x: int)
    ensures Doubled(x, 12) == 4096 * x
  {
    Doubled4(x);
    DoubledAdd(x, 4, 4);
    Doubled4(16 * x);
    DoubledAdd(x, 8, 4);
    Doubled4(256 * x);
  }

  lemma Doubled22(x: int)
    ensures Doubled(x, 22) == TWO22 * x
  {
    Doubled12(x);
    DoubledAdd(x, 12, 4);
    Doubled4(4096 * x);
    DoubledAdd(x, 16, 4);
    Doubled4(65536 * x);
    DoubledAdd(x, 20, 2);
  }

  lemma Wrap(x: int, q: int, r: int)
    requires x == TWO64 * q + r && 0 <= r < TWO64
    ensures ToUnsigned(x) == r && ToUnsigned(ToInt64(x)) == r && ToInt64(x) == ToInt64(r)
  {
  }

  /** The fields do not overlap, so the or is a sum (modulo the width of the word),
      whatever the clock reads. */
  lemma AssembleIsSum(now: int, machine: int, sequence: int)
    requires InFields(machine, sequence)
    ensures Assemble(now, machine, sequence) ==
            ToInt64((now - EPOCH) * TWO22 + machine * 4096 + sequence)
  {
    hide ToUnsigned, ToInt64, Doubled, BitOr;
    var ms := now - EPOCH;
    var q, r := ms / TWO42, ms % TWO42;
    var hi, mid := r * TWO22, machine * 4096;
    Doubled22(ms);
    Wrap(ms * TWO22, q, hi);
    Doubled12(machine);
    Wrap(mid, 0, mid);
    Doubled22(r);
    Doubled22(1);
    OrIsSum(r, 22, mid);
    Wrap(hi + mid, 0, hi + mid);
    var top := r * 1024 + machine;
    Doubled12(top);
    Doubled12(1);
    OrIsSum(top, 12, sequence);
    Wrap(sequence, 0, sequence);
    Wrap(ms * TWO22 + mid + sequence, q, hi + mid + sequence);
  }

  datatype Stamp = Stamp(machine: int, ms: int, sequence: int)

  function IdOf(s: Stamp): int { Assemble(s.ms, s.machine, s.sequence) }

  function Unpack(id: int): Stamp
  {
    Stamp((id / 4096) % 1024, id / TWO22 + EPOCH, id % 4096)
  }

  predicate In41Bits(ms: int) { EPOCH <= ms < EPOCH + TWO41 }

  /** Within 41 bits of milliseconds an ID is a positive 63-bit number from which the
      three fields come back. */
  lemma PackUnpack(s: Stamp)
    requires InFields(s.machine, s.sequence) && In41Bits(s.ms)
    ensures IdOf(s) == (s.ms - EPOCH) * TWO22 + s.machine * 4096 + s.sequence
    ensures 0 <= IdOf(s) < TWO63
    ensures Unpack(IdOf(s)) == s
  {
    hide Assemble, ToInt64;
    AssembleIsSum(s.ms, s.machine, s.sequence);
    var ms, top := s.ms - EPOCH, (s.ms - EPOCH) * 1024 + s.machine;
    SmallWord(top * 4096 + s.sequence);
    var id := top * 4096 + s.sequence;
    DivisionUnique(id, 4096, top, s.sequence);
    DivisionUnique(top, 1024, ms, s.machine);
    DivisionUnique(id, TWO22, ms, s.machine * 4096 + s.sequence);
  }

  lemma SmallWord(x: int)
    requires 0 <= x < TWO63
    ensures ToInt64(x) == x
  {
  }

  /** Every 63-bit number is the ID of exactly the stamp it unpacks to. */
  lemma UnpackPack(id: int)
    requires 0 <= id < TWO63
    ensures InFields(Unpack(id).machine, Unpack(id).sequence) && In41Bits(Unpack(id).ms)
    ensures IdOf(Unpack(id)) == id
  {
    hide IdOf;
    PackUnpack(Unpack(id));
  }

  /** For any clock readings, IDs coincide exactly when machine and sequence are equal and the
      milliseconds agree modulo 2^42. */
  lemma SameIdExactly(s: Stamp, t: Stamp)
    requires InFields(s.machine, s.sequence) && InFields(t.machine, t.sequence)
    ensures IdOf(s) == IdOf(t) <==>
            s.machine == t.machine && s.sequence == t.sequence && (s.ms - t.ms) % TWO42 == 0
  {
    hide Assemble, ToInt64;
    AssembleIsSum(s.ms, s.machine, s.sequence);
    AssembleIsSum(t.ms, t.machine, t.sequence);
    SumsAgree(s.ms - EPOCH, s.machine * 4096 + s.sequence, t.ms - EPOCH, t.machine * 4096 + t.sequence);
  }

  lemma SumsAgree(x: int, lowX: int, y: int, lowY: int)
    requires 0 <= lowX < TWO22 && 0 <= lowY < TWO22
    ensures ToInt64(x * TWO22 + lowX) == ToInt64(y * TWO22 + lowY) <==> lowX == lowY && (x - y) % TWO42 == 0
  {
    hide ToInt64, ToUnsigned;
    var qx, rx, qy, ry := x / TWO42, x % TWO42, y / TWO42, y % TWO42;
    Wrap(x * TWO22 + lowX, qx, rx * TWO22 + lowX);
    Wrap(y * TWO22 + lowY, qy, ry * TWO22 + lowY);
    Injective64(rx * TWO22 + lowX, ry * TWO22 + lowY);
    SameRest(x - y, qx - qy, rx - ry);
  }

  lemma SameRest(d: int, q: int, r: int)
    requires d == TWO42 * q + r && -TWO42 < r < TWO42
    ensures d % TWO42 == 0 <==> r == 0
  {
  }

  lemma Injective64(u: int, v: int)
    requires 0 <= u < TWO64 && 0 <= v < TWO64
    ensures ToInt64(u) == ToInt64(v) <==> u == v
  {
  }

  // ------------------------------------------------------------ one generator

  datatype Gen = Gen(machine: int, timestamp: int, sequence: int)

  datatype Outcome = Issued(stamp: Stamp) | ClockMovedBack(lag: int)

  predicate GenOk(g: Gen) { InFields(g.machine, g.sequence) }

  /** The sequence is used up within the stored millisecond, so the call has to wait. */
  predicate MustWait(g: Gen, readings: seq<int>)
    requires readings != []
  {
    readings[0] == g.timestamp && g.sequence == MAX_SEQUENCE
  }

  /** The clock is read at least once, and passes the stored millisecond if the call waits for it. */
  predicate ClockSuffices(g: Gen, readings: seq<int>)
  {
    readings != [] && (MustWait(g, readings) ==> exists i :: 0 <= i < |readings| && readings[i] > g.timestamp)
  }

  function FirstAfter(readings: seq<int>, t: int): (k: nat)
    requires exists i :: 0 <= i < |readings| && readings[i] > t
    ensures k < |readings| && readings[k] > t && forall i :: 0 <= i < k ==> readings[i] <= t
  {
    if readings[0] > t then 0
    else
      var k := FirstAfter(readings[1..], t);
      assert forall i :: 1 <= i <= k ==> readings[i] == readings[1..][i - 1];
      k + 1
  }

  /** What one call does to the generator's state and returns. */
  function Step(g: Gen, readings: seq<int>): (Gen, Outcome)
    requires ClockSuffices(g, readings)
  {
    var now := readings[0];
    if now < g.timestamp then (g, ClockMovedBack(g.timestamp - now))
    else
      var now' := if MustWait(g, readings) then readings[FirstAfter(readings, g.timestamp)] else now;
      var next := if now == g.timestamp then (g.sequence + 1) % (MAX_SEQUENCE + 1) else 0;
      (Gen(g.machine, now', next), Issued(Stamp(g.machine, now', next)))
  }

  class Generator {
    var timestamp: int
    var sequence: int
    const machineID: int

    ghost function State(): Gen
      reads this
    {
      Gen(machineID, timestamp, sequence)
    }

    ghost predicate Valid()
      reads this
    {
      GenOk(State())
    }

    constructor (machine: int)
      requires 0 <= machine <= MAX_MACHINE_ID
      ensures Valid() && State() == Gen(machine, 0, 0)
    {
      machineID := machine;
      sequence := 0;
      timestamp := 0;
    }

    /** `readings` are the values the clock shows, in the order it is read; `used` counts the reads. */
    method NextID(readings: seq<int>) returns (outcome: Outcome, id: int, used: nat)
      requires Valid() && ClockSuffices(State(), readings)
      modifies this
      ensures Valid() && (State(), outcome) == Step(old(State()), readings)
      ensures outcome.Issued? ==> id == IdOf(outcome.stamp)
      ensures outcome.ClockMovedBack? ==> unchanged(this)
      ensures used == if old(MustWait(State(), readings)) then FirstAfter(readings, old(timestamp)) + 1 else 1
    {
      hide Assemble;
      var now := readings[0];
      used, id := 1, 0;
      if now < timestamp {
        return ClockMovedBack(timestamp - now), id, used;
      }
      if now == timestamp {
        sequence := (sequence + 1) % (MAX_SEQUENCE + 1);
        if sequence == 0 {
          while now <= timestamp
            invariant used <= |readings| && now == readings[used - 1]
            invariant forall i :: 0 <= i < used - 1 ==> readings[i] <= timestamp
            invariant unchanged(`timestamp) && sequence == 0
            decreases |readings| - used
          {
            now := readings[used];
            used := used + 1;
          }
        }
      } else {
        sequence := 0;
      }
      timestamp := now;
      id := Assemble(now, machineID, sequence);
      outcome := Issued(Stamp(machineID, now, sequence));
    }
  }

  /** Later in time, or later in the same millisecond. */
  predicate Before(ms: int, sequence: int, ms': int, sequence': int)
  {
    ms < ms' || (ms == ms' && sequence < sequence')
  }

  lemma StepAdvances(g: Gen, readings: seq<int>)
    requires GenOk(g) && ClockSuffices(g, readings)
    ensures var (g', o) := Step(g, readings);
            GenOk(g') && g'.machine == g.machine &&
            (o.ClockMovedBack? ==> g' == g) &&
            (o.Issued? ==> o.stamp == Stamp(g.machine, g'.timestamp, g'.sequence) &&
                           Before(g.timestamp, g.sequence, g'.timestamp, g'.sequence))
  {
  }

  // ------------------------------------------------------- many generators

  /** A call on the generator of one machine; calls on different machines interleave freely. */
  datatype Call = Call(machine: int, readings: seq<int>)

  datatype System = System(gens: map<int, Gen>, issued: seq<Stamp>)

  /** One fresh generator for each machine ID. */
  function Fresh(machines: set<int>): System
  {
    System(map m | m in machines :: Gen(m, 0, 0), [])
  }

  predicate CanCall(s: System, c: Call)
  {
    c.machine in s.gens && ClockSuffices(s.gens[c.machine], c.readings)
  }

  function DoCall(s: System, c: Call): System
    requires CanCall(s, c)
  {
    var (g, o) := Step(s.gens[c.machine], c.readings);
    System(s.gens[c.machine := g], if o.Issued? then s.issued + [o.stamp] else s.issued)
  }

  /** The state after a run from fresh generators; none if some call could not be made. A call
      that fails on a clock that moved back may be followed by more. */
  function Run(machines: set<int>, calls: seq<Call>): Option<System>
  {
    if calls == [] then Some(Fresh(machines))
    else
      var c := calls[|calls| - 1];
      match Run(machines, calls[..|calls| - 1])
      case None => None
      case Some(s) => if CanCall(s, c) then Some(DoCall(s, c)) else None
  }

  ghost predicate Ordered(s: System)
  {
    (forall m <- s.gens :: s.gens[m].machine == m && GenOk(s.gens[m])) &&
    (forall i :: 0 <= i < |s.issued| ==>
      var t := s.issued[i];
      t.machine in s.gens && InFields(t.machine, t.sequence) &&
      !Before(s.gens[t.machine].timestamp, s.gens[t.machine].sequence, t.ms, t.sequence)) &&
    (forall i, j :: 0 <= i < j < |s.issued| && s.issued[i].machine == s.issued[j].machine ==>
      Before(s.issued[i].ms, s.issued[i].sequence, s.issued[j].ms, s.issued[j].sequence))
  }

  lemma CallKeepsOrder(s: System, c: Call)
    requires Ordered(s) && CanCall(s, c)
    ensures Ordered(DoCall(s, c))
  {
    hide Step;
    StepAdvances(s.gens[c.machine], c.readings);
    var s' := DoCall(s, c);
    forall i | 0 <= i < |s'.issued| ensures var t := s'.issued[i];
      t.machine in s'.gens && InFields(t.machine, t.sequence) &&
      !Before(s'.gens[t.machine].timestamp, s'.gens[t.machine].sequence, t.ms, t.sequence) {
      var t := s'.issued[i];
      if i < |s.issued| {
        assert s.issued[i] == t;
        if t.machine == c.machine {
          assert s'.gens[t.machine] == Step(s.gens[c.machine], c.readings).0;
        } else {
          assert s'.gens[t.machine] == s.gens[t.machine];
        }
      }
    }
    assert forall i, j :: 0 <= i < j < |s'.issued| && s'.issued[i].machine == s'.issued[j].machine ==>
      Before(s'.issued[i].ms, s'.issued[i].sequence, s'.issued[j].ms, s'.issued[j].sequence);
  }

  lemma {:induction false} RunIsOrdered(machines: set<int>, calls: seq<Call>, s: System)
    requires forall m <- machines :: 0 <= m <= MAX_MACHINE_ID
    requires Run(machines, calls) == Some(s)
    ensures Ordered(s)
    decreases |calls|
  {
    if calls == [] {
    } else {
      var s0 := Run(machines, calls[..|calls| - 1]).value;
      RunIsOrdered(machines, calls[..|calls| - 1], s0);
      CallKeepsOrder(s0, calls[|calls| - 1]);
    }
  }

  /** All issued milliseconds lie within one span of 2^42. */
  predicate WithinSpan(s: System)
  {
    forall i, j :: 0 <= i < |s.issued| && 0 <= j < |s.issued| ==> s.issued[i].ms - s.issued[j].ms < TWO42
  }

  /** Uniqueness over the whole system: in every run of any generators with distinct machine
      IDs, stepping in any order with any clock readings, no ID is ever issued twice. */
  lemma IdsAreUnique(machines: set<int>, calls: seq<Call>, s: System, i: nat, j: nat)
    requires forall m <- machines :: 0 <= m <= MAX_MACHINE_ID
    requires Run(machines, calls) == Some(s) && WithinSpan(s)
    requires i < j < |s.issued|
    ensures IdOf(s.issued[i]) != IdOf(s.issued[j])
  {
    hide IdOf, Run;
    RunIsOrdered(machines, calls, s);
    var t, u := s.issued[i], s.issued[j];
    SameIdExactly(t, u);
    assert -TWO42 < t.ms - u.ms < TWO42;
  }

  /** IDs of one machine strictly increase while the clock stays within 41 bits. */
  lemma IdsIncrease(machines: set<int>, calls: seq<Call>, s: System, i: nat, j: nat)
    requires forall m <- machines :: 0 <= m <= MAX_MACHINE_ID
    requires Run(machines, calls) == Some(s)
    requires i < j < |s.issued| && s.issued[i].machine == s.issued[j].machine
    requires In41Bits(s.issued[i].ms) && In41Bits(s.issued[j].ms)
    ensures 0 <= IdOf(s.issued[i]) < IdOf(s.issued[j]) < TWO63
  {
    hide IdOf, Run;
    RunIsOrdered(machines, calls, s);
    PackUnpack(s.issued[i]);
    PackUnpack(s.issued[j]);
  }

  /** The span is needed: 2^42 milliseconds apart, the same machine repeats an ID. */
  lemma SpanIsNeeded(machine: int)
    requires 0 <= machine <= MAX_MACHINE_ID
    ensures var r := Run({machine}, [Call(machine, [EPOCH]), Call(machine, [EPOCH + TWO42])]);
            r.Some? && |r.value.issued| == 2 && IdOf(r.value.issued[0]) == IdOf(r.value.issued[1])
  {
    hide IdOf;
    var c0, c1 := Call(machine, [EPOCH]), Call(machine, [EPOCH + TWO42]);
    assert [c0][..0] == [] && [c0, c1][..1] == [c0];
    var s1 := DoCall(Fresh({machine}), c0);
    assert Run({machine}, [c0]) == Some(s1);
    SameIdExactly(Stamp(machine, EPOCH, 0), Stamp(machine, EPOCH + TWO42, 0));
  }

  /** So are distinct machine IDs: two generators with one ID issue the same ID in the same
      millisecond. */
  lemma SharedMachineCollides(machine: int, now: int)
    requires 0 <= machine <= MAX_MACHINE_ID && now > 0
    ensures var (g, o) := Step(Gen(machine, 0, 0), [now]);
            var (h, p) := Step(Gen(machine, 0, 0), [now]);
            o.Issued? && p.Issued? && IdOf(o.stamp) == IdOf(p.stamp)
  {
  }

  // ------------------------------------------------- IDs in one millisecond

  lemma {:induction false} PigeonHole<T(!new)>(s: set<T>, f: T -> int, n: nat)
    requires forall i <- s :: 0 <= f(i) < n
    requires forall i, j :: i in s && j in s && f(i) == f(j) ==> i == j
    ensures |s| <= n
  {
    if n == 0 {
      assert forall i :: i !in s;
    } else if k :| k in s && f(k) == n - 1 {
      PigeonHole(s - {k}, f, n - 1);
    } else {
      PigeonHole(s, f, n - 1);
    }
  }

  /** No more than 4096 IDs of one machine carry one millisecond. */
  lemma AtMost4096PerMillisecond(machines: set<int>, calls: seq<Call>, s: System, machine: int, ms: int)
    requires forall m <- machines :: 0 <= m <= MAX_MACHINE_ID
    requires Run(machines, calls) == Some(s)
    ensures |set i | 0 <= i < |s.issued| && s.issued[i].machine == machine && s.issued[i].ms == ms| <= 4096
  {
    hide Run;
    RunIsOrdered(machines, calls, s);
    var at := set i | 0 <= i < |s.issued| && s.issued[i].machine == machine && s.issued[i].ms == ms;
    var f := i => if 0 <= i < |s.issued| then s.issued[i].sequence else 0;
    PigeonHole(at, f, 4096);
  }

  // ------------------------------------------- the clock readings fix the IDs

  /** How many stamps carry a machine and a millisecond. */
  function Count(issued: seq<Stamp>, machine: int, ms: int): nat
  {
    if issued == [] then 0
    else
      var t := issued[|issued| - 1];
      Count(issued[..|issued| - 1], machine, ms) + if t.machine == machine && t.ms == ms then 1 else 0
  }

  /** The machine's latest millisecond, 0 before its first ID. */
  function LastMs(issued: seq<Stamp>, machine: int): int
  {
    if issued == [] then 0
    else if issued[|issued| - 1].machine == machine then issued[|issued| - 1].ms
    else LastMs(issued[..|issued| - 1], machine)
  }

  /** The sequence numbers used up in a millisecond; at millisecond 0 the first one counts as used. */
  function Taken(issued: seq<Stamp>, machine: int, ms: int): nat
  {
    Count(issued, machine, ms) + if ms == 0 then 1 else 0
  }

  lemma Appended(issued: seq<Stamp>, t: Stamp)
    ensures forall m: int, ms: int :: Count(issued + [t], m, ms) ==
              Count(issued, m, ms) + if t.machine == m && t.ms == ms then 1 else 0
    ensures forall m: int :: LastMs(issued + [t], m) == if t.machine == m then t.ms else LastMs(issued, m)
  {
    assert (issued + [t])[..|issued|] == issued;
  }

  /** Every generator stands at its machine's latest millisecond, with the numbers taken there. */
  ghost predicate Counted(s: System)
  {
    forall m <- s.gens ::
      var g := s.gens[m];
      g.machine == m && 0 <= g.sequence <= 4095 && 0 <= g.timestamp == LastMs(s.issued, m) &&
      Taken(s.issued, m, g.timestamp) == g.sequence + 1 &&
      forall ms :: ms > g.timestamp ==> Count(s.issued, m, ms) == 0
  }

  /** The first reading that is later than `now`. */
  ghost predicate FirstLater(readings: seq<int>, now: int, later: int)
  {
    exists k :: 0 <= k < |readings| && readings[k] == later > now && forall j :: 0 <= j < k ==> readings[j] <= now
  }

  lemma CallCounts(s: System, c: Call)
    requires Counted(s) && CanCall(s, c)
    ensures Counted(DoCall(s, c))
    ensures var now, last := c.readings[0], LastMs(s.issued, c.machine);
            var taken := Taken(s.issued, c.machine, now);
            var (g, o) := Step(s.gens[c.machine], c.readings);
            if now < last then o == ClockMovedBack(last - now)
            else if taken < 4096 then o == Issued(Stamp(c.machine, now, taken))
            else o.Issued? && o.stamp == Stamp(c.machine, o.stamp.ms, 0) && FirstLater(c.readings, now, o.stamp.ms)
    ensures MustWait(s.gens[c.machine], c.readings) <==>
            c.readings[0] >= LastMs(s.issued, c.machine) && Taken(s.issued, c.machine, c.readings[0]) == 4096
  {
    hide Count, LastMs;
    var g, now := s.gens[c.machine], c.readings[0];
    assert now > g.timestamp ==> Count(s.issued, c.machine, now) == 0;
    var (g', o) := Step(g, c.readings);
    if MustWait(g, c.readings) {
      assert FirstLater(c.readings, now, g'.timestamp);
    }
    if o.Issued? {
      Appended(s.issued, o.stamp);
    }
  }

  lemma {:induction false} RunIsCounted(machines: set<int>, calls: seq<Call>, s: System)
    requires Run(machines, calls) == Some(s)
    ensures Counted(s)
    decreases |calls|
  {
    hide Counted, DoCall;
    if calls == [] {
      FreshIsCounted(machines);
    } else {
      var s0 := Run(machines, calls[..|calls| - 1]).value;
      RunIsCounted(machines, calls[..|calls| - 1], s0);
      CallCounts(s0, calls[|calls| - 1]);
    }
  }

  lemma FreshIsCounted(machines: set<int>)
    ensures Counted(Fresh(machines))
  {
  }

  /** After any run, a call's answer follows from the clock readings and the IDs issued so far: an
      error when the clock is behind the machine's latest ID; otherwise the millisecond read with
      as many IDs of the machine as it has before, and when those are 4096, number 0 of the first
      later millisecond read. */
  lemma ReadingsFixTheCall(machines: set<int>, calls: seq<Call>, s: System, c: Call)
    requires Run(machines, calls) == Some(s) && CanCall(s, c)
    ensures var now, last := c.readings[0], LastMs(s.issued, c.machine);
            var taken := Taken(s.issued, c.machine, now);
            var o := Step(s.gens[c.machine], c.readings).1;
            if now < last then o == ClockMovedBack(last - now)
            else if taken < 4096 then o == Issued(Stamp(c.machine, now, taken))
            else o.Issued? && o.stamp == Stamp(c.machine, o.stamp.ms, 0) && FirstLater(c.readings, now, o.stamp.ms)
    ensures MustWait(s.gens[c.machine], c.readings) <==>
            c.readings[0] >= LastMs(s.issued, c.machine) && Taken(s.issued, c.machine, c.readings[0]) == 4096
  {
    hide Run, Counted, Step, MustWait, Taken;
    RunIsCounted(machines, calls, s);
    CallCounts(s, c);
  }

  /** In every run, an ID's sequence is the number of earlier IDs of its machine in its
      millisecond. */
  lemma {:induction false} SequenceIsCount(machines: set<int>, calls: seq<Call>, s: System, i: nat)
    requires Run(machines, calls) == Some(s) && i < |s.issued|
    ensures s.issued[i].sequence == Taken(s.issued[..i], s.issued[i].machine, s.issued[i].ms)
    decreases |calls|
  {
    hide Taken, Step, Counted;
    if calls != [] {
      var s0, c := Run(machines, calls[..|calls| - 1]).value, calls[|calls| - 1];
      if i < |s0.issued| {
        SequenceIsCount(machines, calls[..|calls| - 1], s0, i);
        assert s.issued[..i] == s0.issued[..i];
      } else {
        assert s.issued[..i] == s0.issued;
        RunIsCounted(machines, calls[..|calls| - 1], s0);
        CallCounts(s0, c);
        if s.issued[i].ms > LastMs(s0.issued, c.machine) {
          LaterIsFree(s0, c.machine, s.issued[i].ms);
        }
      }
    }
  }

  lemma LaterIsFree(s: System, machine: int, ms: int)
    requires Counted(s) && machine in s.gens && ms > LastMs(s.issued, machine)
    ensures Taken(s.issued, machine, ms) == 0
  {
  }

  // ------------------------------------------------------------ Init, once

  /** The package state behind `Init`: whether the once has fired, and the default machine. */
  datatype Once = Once(done: bool, machine: Option<int>)

  datatype InitResult = InitOk | InitError

  function InitStep(o: Once, machine: int): (Once, InitResult)
  {
    if o.done then (o, InitOk)
    else if machine < 0 || machine > MAX_MACHINE_ID then (Once(true, None), InitError)
    else (Once(true, Some(machine)), InitOk)
  }

  function InitAll(machines: seq<int>): Once
  {
    if machines == [] then Once(false, None)
    else InitStep(InitAll(machines[..|machines| - 1]), machines[|machines| - 1]).0
  }

  /** The first call decides for good. */
  lemma {:induction false} FirstInitDecides(machines: seq<int>)
    requires machines != []
    ensures InitAll(machines) == Once(true, if 0 <= machines[0] <= MAX_MACHINE_ID then Some(machines[0]) else None)
  {
    var init := machines[..|machines| - 1];
    if init != [] {
      FirstInitDecides(init);
      assert init[0] == machines[0];
    }
  }

  /** After any earlier calls, a call that reports success leaves a generator behind exactly when
      the very first call had a valid machine ID: a failed first call makes every later one
      report success without initializing. */
  lemma InitSuccessMeansInitialized(earlier: seq<int>, machine: int)
    requires InitStep(InitAll(earlier), machine).1 == InitOk
    ensures InitStep(InitAll(earlier), machine).0.machine.Some? <==>
            0 <= (if earlier == [] then machine else earlier[0]) <= MAX_MACHINE_ID
  {
    if earlier != [] {
      FirstInitDecides(earlier);
    }
  }
}
