/**
 `get_clock`: turns clock readings, which may stall or run backwards, into pairs of a 60-bit
 timestamp and a clock sequence number (RFC 4122, sections 4.1.5 and 4.2.1.2).
 */
module UuidClock {
  import opened Arithmetic
  import opened Machine
  import opened Wrappers

  const MAX_ADJUSTMENT: nat := 10
  const SEQUENCES: nat := 0x4000
  const TIME_OFFSET: nat := 0x01B21DD2 * 0x1_0000_0000 + 0x13814000

  /** A `struct timeval`; the seconds are signed. */
  datatype Reading = Reading(sec: int, usec: int) {
    function Micros(): int {
      sec * 1000000 + usec
    }

    /** The timestamp of this reading, with every adjustment, is a number of the given range. */
    predicate Within(limit: nat) {
      0 <= Micros() * 10 + TIME_OFFSET && Micros() * 10 + MAX_ADJUSTMENT + TIME_OFFSET < limit
    }

    /** What `gettimeofday` can return, before 1970 too, other than the zero that marks an unset clock. */
    predicate Usable() {
      0 <= usec < 1000000 && this != Reading(0, 0)
    }
  }

  datatype State = State(adjustment: nat, last: Reading, clockSeq: uint16)

  /** What one call hands out: the reading it used, the ticks it added, and the sequence number. */
  datatype Emission = Emission(reading: Reading, adjustment: nat, clockSeq: uint16) {
    /** `clock_reg`, an unsigned 64-bit count of 100 ns ticks since 15 October 1582. */
    function Clock(): uint64 {
      (reading.usec * 10 + adjustment + reading.sec * 10000000 + TIME_OFFSET) % TWO64
    }

    /** The same count without the wrap-around. */
    function Ticks(): int {
      reading.Micros() * 10 + adjustment + TIME_OFFSET
    }
  }

  /** The static variables before the first call; `clock_seq` is not looked at. */
  const INITIAL := State(0, Reading(0, 0), 0)

  predicate Earlier(a: Reading, b: Reading) {
    a.sec < b.sec || (a.sec == b.sec && a.usec < b.usec)
  }

  /** The first use draws a random sequence number and pretends the last reading was a second ago. */
  function Initialized(st: State, tv: Reading, random: uint16): State {
    if st.last == Reading(0, 0) then State(st.adjustment, Reading(tv.sec - 1, tv.usec), random % SEQUENCES) else st
  }

  /** One pass from `try_again`: the new state, and an emission unless the reading must be retried. */
  function Step(st0: State, tv: Reading, random: uint16): (State, Option<Emission>) {
    var st := Initialized(st0, tv, random);
    if Earlier(tv, st.last) then
      var st' := State(0, tv, (st.clockSeq + 1) % SEQUENCES);
      (st', Some(Emission(tv, 0, st'.clockSeq)))
    else if tv == st.last then
      if st.adjustment >= MAX_ADJUSTMENT then (st, None)
      else
        var st' := st.(adjustment := st.adjustment + 1);
        (st', Some(Emission(tv, st'.adjustment, st'.clockSeq)))
    else
      (State(0, tv, st.clockSeq), Some(Emission(tv, 0, st.clockSeq)))
  }

  /** Everything emitted while the given readings come in, over as many calls as they last for. */
  function Run(st: State, readings: seq<Reading>, random: uint16): seq<Emission>
    decreases |readings|
  {
    if readings == [] then [] else
    var (st', e) := Step(st, readings[0], random);
    (if e.Some? then [e.value] else []) + Run(st', readings[1..], random)
  }

  function After(st: State, readings: seq<Reading>, random: uint16): State
    decreases |readings|
  {
    if readings == [] then st else After(Step(st, readings[0], random).0, readings[1..], random)
  }

  /** How many of the readings lie before the one the clock used last. */
  function BackwardSteps(st: State, readings: seq<Reading>, random: uint16): nat
    decreases |readings|
  {
    if readings == [] then 0 else
    (if Earlier(readings[0], Initialized(st, readings[0], random).last) then 1 else 0)
    + BackwardSteps(Step(st, readings[0], random).0, readings[1..], random)
  }

  // ----- one emission and the next -----

  predicate BackwardLink(a: Emission, b: Emission) {
    Earlier(b.reading, a.reading)
  }

  /** How an emission can follow another. */
  predicate Link(a: Emission, b: Emission) {
    if BackwardLink(a, b) then
      b.adjustment == 0 && b.clockSeq == (a.clockSeq + 1) % SEQUENCES
    else
      && b.clockSeq == a.clockSeq
      && if b.reading == a.reading then b.adjustment == a.adjustment + 1 else b.adjustment == 0
  }

  predicate Proper(e: Emission) {
    e.reading.Usable() && e.adjustment <= MAX_ADJUSTMENT && e.clockSeq < SEQUENCES
  }

  ghost predicate Chain(es: seq<Emission>) {
    && (forall k :: 0 <= k < |es| ==> Proper(es[k]))
    && (forall k :: 0 <= k < |es| - 1 ==> Link(es[k], es[k + 1]))
  }

  /** The backward links between two places of a chain: how many epochs lie between them. */
  function Epochs(es: seq<Emission>, i: nat, j: nat): nat
    requires i <= j < |es|
    decreases j - i
  {
    if i == j then 0 else Epochs(es, i, j - 1) + (if BackwardLink(es[j - 1], es[j]) then 1 else 0)
  }

  /** The clock has just emitted `e`. */
  predicate HasEmitted(st: State, e: Emission) {
    Proper(e) && st == State(e.adjustment, e.reading, e.clockSeq)
  }

  /** The first reading of a run, and the rest. */
  lemma RunStep(st: State, readings: seq<Reading>, random: uint16)
    requires readings != []
    ensures var (st', o) := Step(st, readings[0], random);
            && Run(st, readings, random) == (if o.Some? then [o.value] else []) + Run(st', readings[1..], random)
            && BackwardSteps(st, readings, random) ==
               (if Earlier(readings[0], Initialized(st, readings[0], random).last) then 1 else 0)
               + BackwardSteps(st', readings[1..], random)
  {
  }

  /** After an emission the next one, if the reading is not retried, is linked to it. */
  lemma StepLinks(st: State, e: Emission, tv: Reading, random: uint16)
    requires HasEmitted(st, e) && tv.Usable()
    ensures var (st', o) := Step(st, tv, random);
            && Initialized(st, tv, random).last == e.reading
            && if o.None? then st' == st && !Earlier(tv, e.reading)
               else HasEmitted(st', o.value) && Link(e, o.value) && o.value.reading == tv
  {
  }

  /** What the next reading makes of a clock that has just emitted `e`: the four cases. */
  lemma StepExactly(st: State, e: Emission, tv: Reading, random: uint16)
    requires HasEmitted(st, e) && tv.Usable()
    ensures tv.Micros() < e.reading.Micros() ==>
              Step(st, tv, random).1 == Some(Emission(tv, 0, (e.clockSeq + 1) % 0x4000))
    ensures tv.Micros() > e.reading.Micros() ==> Step(st, tv, random).1 == Some(Emission(tv, 0, e.clockSeq))
    ensures tv == e.reading && e.adjustment < 10 ==>
              Step(st, tv, random).1 == Some(Emission(tv, e.adjustment + 1, e.clockSeq))
    ensures tv == e.reading && e.adjustment == 10 ==> Step(st, tv, random) == (st, None)
    ensures tv.Micros() == e.reading.Micros() <==> tv == e.reading
  {
  }

  /** The first reading of a run is used as it is, with fourteen of the bits drawn. */
  lemma FirstEmission(readings: seq<Reading>, random: uint16)
    requires readings != [] && readings[0].Usable()
    ensures var es := Run(INITIAL, readings, random);
            es != [] && es[0] == Emission(readings[0], 0, random % 0x4000)
            && HasEmitted(Step(INITIAL, readings[0], random).0, es[0])
            && es == [es[0]] + Run(Step(INITIAL, readings[0], random).0, readings[1..], random)
  {
  }

  // ----- the epoch -----

  /** 15 October 1582 lies 141427 days before 1 January 1970; a tick is 100 ns. */
  lemma EpochOffset()
    ensures TIME_OFFSET == 141427 * 86400 * 10000000
  {
  }

  /** The clock counts the ticks since 15 October 1582, modulo 2^64. */
  lemma ClockCountsTicks(e: Emission)
    ensures e.Ticks() == (e.reading.sec + 141427 * 86400) * 10000000 + e.reading.usec * 10 + e.adjustment
    ensures e.Clock() == e.Ticks() % 0x1_0000_0000_0000_0000
    ensures Proper(e) && e.reading.Within(TWO64) ==>
              e.Clock() == (e.reading.sec + 141427 * 86400) * 10000000 + e.reading.usec * 10 + e.adjustment
  {
  }

  lemma ChainOnward(e: Emission, es: seq<Emission>)
    requires Proper(e) && Chain(es) && es != [] && Link(e, es[0])
    ensures Chain([e] + es)
  {
    hide Proper, Link;
    var all := [e] + es;
    forall k | 0 <= k < |all| - 1 ensures Link(all[k], all[k + 1]) {
      if k > 0 {
        assert Link(es[k - 1], es[k - 1 + 1]);
      }
    }
  }

  lemma {:induction false} RunContinues(st: State, e: Emission, readings: seq<Reading>, random: uint16)
    requires HasEmitted(st, e)
    requires forall tv :: tv in readings ==> tv.Usable()
    ensures Chain([e] + Run(st, readings, random))
    ensures Epochs([e] + Run(st, readings, random), 0, |Run(st, readings, random)|) == BackwardSteps(st, readings, random)
    decreases |readings|
  {
    if readings != [] {
      hide Run, BackwardSteps, Epochs, Step, Initialized, Link, Chain;
      var (st', o) := Step(st, readings[0], random);
      RunStep(st, readings, random);
      StepLinks(st, e, readings[0], random);
      if o.None? {
        RunContinues(st', e, readings[1..], random);
        assert [] + Run(st', readings[1..], random) == Run(st', readings[1..], random);
      } else {
        var rest := [o.value] + Run(st', readings[1..], random);
        RunContinues(st', o.value, readings[1..], random);
        ChainOnward(e, rest);
        EpochsOfTail(e, rest, |rest| - 1);
      }
    }
  }

  lemma {:induction false} EpochsOfTail(e: Emission, es: seq<Emission>, j: nat)
    requires j < |es|
    ensures Epochs([e] + es, 0, j + 1) == (if BackwardLink(e, es[0]) then 1 else 0) + Epochs(es, 0, j)
    decreases j
  {
    if j == 0 {
      assert Epochs([e] + es, 0, 1) == Epochs([e] + es, 0, 0) + (if BackwardLink(e, es[0]) then 1 else 0);
    } else {
      EpochsOfTail(e, es, j - 1);
    }
  }

  /** A whole run from the start is a chain, and its backward links are its backward readings. */
  lemma RunIsChain(readings: seq<Reading>, random: uint16)
    requires forall tv :: tv in readings ==> tv.Usable()
    ensures var es := Run(INITIAL, readings, random);
            Chain(es) && (es != [] ==> Epochs(es, 0, |es| - 1) == BackwardSteps(INITIAL, readings, random))
  {
    if readings != [] {
      var (st', o) := Step(INITIAL, readings[0], random);
      RunContinues(st', o.value, readings[1..], random);
    }
  }

  // ----- uniqueness -----

  /** Orders the emissions of one epoch. */
  function Key(e: Emission): int {
    e.reading.Micros() * (MAX_ADJUSTMENT + 1) + e.adjustment
  }

  lemma LinkAdvancesKey(a: Emission, b: Emission)
    requires Proper(a) && Proper(b) && Link(a, b) && !BackwardLink(a, b)
    ensures Key(a) < Key(b)
  {
    if b.reading != a.reading {
      assert a.reading.Micros() < b.reading.Micros();
    }
  }

  lemma {:induction false} EpochsSplit(es: seq<Emission>, i: nat, j: nat, k: nat)
    requires i <= j <= k < |es|
    ensures Epochs(es, i, k) == Epochs(es, i, j) + Epochs(es, j, k)
    decreases k - j
  {
    if j < k {
      EpochsSplit(es, i, j, k - 1);
    }
  }

  /** The sequence number moves on by one an epoch. */
  lemma {:induction false} SequenceAfter(es: seq<Emission>, i: nat, j: nat)
    requires Chain(es) && i <= j < |es|
    ensures es[j].clockSeq == (es[i].clockSeq + Epochs(es, i, j)) % SEQUENCES
    decreases j - i
  {
    if i < j {
      SequenceAfter(es, i, j - 1);
      assert Link(es[j - 1], es[j - 1 + 1]);
    }
  }

  /** Within an epoch emissions are strictly ordered by reading and then adjustment. */
  lemma {:induction false} KeysIncrease(es: seq<Emission>, i: nat, j: nat)
    requires Chain(es) && i < j < |es| && Epochs(es, i, j) == 0
    ensures Key(es[i]) + (j - i) <= Key(es[j])
    decreases j - i
  {
    assert Link(es[j - 1], es[j - 1 + 1]);
    LinkAdvancesKey(es[j - 1], es[j]);
    if i < j - 1 {
      KeysIncrease(es, i, j - 1);
    }
  }

  /** Ten ticks after one microsecond is the next microsecond. */
  predicate Collide(a: Emission, b: Emission) {
    && a.clockSeq == b.clockSeq
    && a.adjustment == MAX_ADJUSTMENT && b.adjustment == 0
    && b.reading.Micros() == a.reading.Micros() + 1
  }

  lemma TicksOrder(a: Emission, b: Emission)
    requires Proper(a) && Proper(b) && Key(a) < Key(b)
    ensures a.Ticks() <= b.Ticks()
    ensures a.Ticks() == b.Ticks() <==>
            a.adjustment == MAX_ADJUSTMENT && b.adjustment == 0 && b.reading.Micros() == a.reading.Micros() + 1
    ensures a.Ticks() == b.Ticks() ==> Key(b) == Key(a) + 1
  {
  }

  /** Within an epoch timestamps never decrease. */
  lemma TicksNeverDecrease(es: seq<Emission>, i: nat, j: nat)
    requires Chain(es) && i <= j < |es| && Epochs(es, i, j) == 0
    ensures es[i].Ticks() <= es[j].Ticks()
  {
    if i < j {
      KeysIncrease(es, i, j);
      TicksOrder(es[i], es[j]);
    }
  }

  /** Two places of a chain with few backward links share timestamp and sequence only by the tenth tick. */
  lemma ChainUniqueness(es: seq<Emission>, i: nat, j: nat)
    requires Chain(es) && i < j < |es|
    requires Epochs(es, 0, |es| - 1) < SEQUENCES
    ensures es[i].Ticks() == es[j].Ticks() && es[i].clockSeq == es[j].clockSeq <==>
            j == i + 1 && Collide(es[i], es[j])
  {
    EpochsSplit(es, 0, i, |es| - 1);
    EpochsSplit(es, i, j, |es| - 1);
    SequenceAfter(es, i, j);
    if Epochs(es, i, j) == 0 {
      KeysIncrease(es, i, j);
      TicksOrder(es[i], es[j]);
    } else {
      NextSequencesDiffer(es[i].clockSeq, Epochs(es, i, j));
    }
  }

  lemma NextSequencesDiffer(s: nat, n: nat)
    requires s < SEQUENCES && 0 < n < SEQUENCES
    ensures (s + n) % SEQUENCES != s
  {
  }

  /** A whole number of wrap-arounds of a counter lies between the two timestamps. */
  predicate WrapsApart(a: Emission, b: Emission, period: nat)
    requires period > 0
  {
    a.Ticks() != b.Ticks() && (b.Ticks() - a.Ticks()) % period == 0
  }

  lemma ClockIsTicksWrapped(e: Emission)
    ensures e.Clock() == e.Ticks() % TWO64
  {
  }

  lemma SameClock(a: Emission, b: Emission)
    ensures a.Clock() == b.Clock() <==> a.Ticks() == b.Ticks() || WrapsApart(a, b, TWO64)
  {
    ClockIsTicksWrapped(a);
    ClockIsTicksWrapped(b);
    SameRemainder(a.Ticks(), b.Ticks(), TWO64);
  }

  lemma SameRemainder(x: int, y: int, period: nat)
    requires period > 0
    ensures x % period == y % period <==> (y - x) % period == 0
  {
    var r := y % period - x % period;
    var q := (y - x) / period - y / period + x / period;
    assert x == period * (x / period) + x % period;
    assert y == period * (y / period) + y % period;
    assert y - x == period * ((y - x) / period) + (y - x) % period;
    assert r == period * q + (y - x) % period;
    if x % period == y % period {
      SmallMultipleOf(q, (y - x) % period, period);
    } else if (y - x) % period == 0 {
      SmallMultipleOf(q, -r, period);
    }
  }

  /**
   Over any run with fewer than 2^14 backward steps, two emissions share both timestamp and
   clock sequence exactly if they follow one another, the earlier used the tenth adjustment,
   and the later reading is one microsecond on; or if the 64-bit count wrapped around between
   them.  Within an epoch the unwrapped timestamps never decrease.
   */
  lemma RunUniqueness(readings: seq<Reading>, random: uint16, i: nat, j: nat)
    requires forall tv :: tv in readings ==> tv.Usable()
    requires BackwardSteps(INITIAL, readings, random) < SEQUENCES
    requires i < j < |Run(INITIAL, readings, random)|
    ensures var es := Run(INITIAL, readings, random);
            && (es[i].Clock() == es[j].Clock() && es[i].clockSeq == es[j].clockSeq <==>
                || (j == i + 1 && Collide(es[i], es[j]))
                || (WrapsApart(es[i], es[j], TWO64) && es[i].clockSeq == es[j].clockSeq))
            && (Epochs(es, i, j) == 0 ==> es[i].Ticks() <= es[j].Ticks())
  {
    hide Run, BackwardSteps, Epochs, WrapsApart, Collide;
    var es := Run(INITIAL, readings, random);
    RunIsChain(readings, random);
    ChainUniqueness(es, i, j);
    SameClock(es[i], es[j]);
    if Epochs(es, i, j) == 0 {
      TicksNeverDecrease(es, i, j);
    }
  }

  /** Readings of one range of the counter: nothing wraps, so only the tenth adjustment makes two emissions meet. */
  lemma RunUniquenessInRange(readings: seq<Reading>, random: uint16, i: nat, j: nat)
    requires forall tv :: tv in readings ==> tv.Usable() && tv.Within(TWO64)
    requires BackwardSteps(INITIAL, readings, random) < SEQUENCES
    requires i < j < |Run(INITIAL, readings, random)|
    ensures var es := Run(INITIAL, readings, random);
            && (es[i].Clock() == es[j].Clock() && es[i].clockSeq == es[j].clockSeq <==>
                j == i + 1 && Collide(es[i], es[j]))
            && (Epochs(es, i, j) == 0 ==> es[i].Clock() <= es[j].Clock())
  {
    hide Run, BackwardSteps, Epochs, Collide, WrapsApart;
    var es := Run(INITIAL, readings, random);
    RunIsChain(readings, random);
    RunReadings(INITIAL, readings, random);
    RunUniqueness(readings, random, i, j);
    InRange(es[i], es[j], TWO64);
    ClockIsTicks(es[i]);
    ClockIsTicks(es[j]);
  }

  lemma InRange(a: Emission, b: Emission, period: nat)
    requires Proper(a) && Proper(b) && period > 0 && a.reading.Within(period) && b.reading.Within(period)
    ensures !WrapsApart(a, b, period)
  {
    if WrapsApart(a, b, period) {
      SmallMultiple(b.Ticks() - a.Ticks(), period);
    }
  }

  lemma SmallMultiple(d: int, period: int)
    requires 0 - period < d < period && d % period == 0
    ensures d == 0
  {
    assert d == period * (d / period);
    SmallMultipleOf(d / period, -d, period);
  }

  lemma ClockIsTicks(e: Emission)
    requires Proper(e) && e.reading.Within(TWO64)
    ensures e.Clock() == e.Ticks()
  {
    assert 0 <= e.Ticks() < TWO64;
  }

  lemma {:induction false} RunReadings(st: State, readings: seq<Reading>, random: uint16)
    ensures forall e :: e in Run(st, readings, random) ==> e.reading in readings
    decreases |readings|
  {
    if readings != [] {
      var (st', o) := Step(st, readings[0], random);
      assert readings == [readings[0]] + readings[1..];
      RunReadings(st', readings[1..], random);
    }
  }

  /** The exception does happen: eleven equal readings and then the next microsecond. */
  lemma CollisionExample()
    ensures var a := Reading(1, 0);
            var es := Run(INITIAL, seq(11, _ => a) + [Reading(1, 1)], 7);
            |es| == 12 && es[10].Clock() == es[11].Clock() && es[10].clockSeq == es[11].clockSeq
  {
    var a := Reading(1, 0);
    EqualReadings(State(0, a, 7), a, 10, [Reading(1, 1)], 7);
    var rs := seq(11, _ => a) + [Reading(1, 1)];
    assert rs[1..] == seq(10, _ => a) + [Reading(1, 1)];
    var st10 := State(10, a, 7);
    assert Run(st10, [Reading(1, 1)], 7) == [Emission(Reading(1, 1), 0, 7)] by {
      assert Run(State(0, Reading(1, 1), 7), [], 7) == [];
      assert [Reading(1, 1)][1..] == [];
    }
  }

  /** A stalled clock emits the same reading with growing adjustments, up to the limit. */
  lemma {:induction false} EqualReadings(st: State, tv: Reading, n: nat, rest: seq<Reading>, random: uint16)
    requires tv.Usable() && st.last == tv && st.adjustment + n <= MAX_ADJUSTMENT
    ensures Run(st, seq(n, _ => tv) + rest, random) ==
            seq(n, k requires 0 <= k => Emission(tv, st.adjustment + 1 + k, st.clockSeq))
            + Run(st.(adjustment := st.adjustment + n), rest, random)
    decreases n
  {
    hide Run;
    var rs := seq(n, _ => tv) + rest;
    if n == 0 {
      assert rs == rest;
    } else {
      var st' := st.(adjustment := st.adjustment + 1);
      assert rs[0] == tv && rs[1..] == seq(n - 1, _ => tv) + rest;
      RunStep(st, rs, random);
      assert Step(st, tv, random) == (st', Some(Emission(tv, st'.adjustment, st.clockSeq)));
      EqualReadings(st', tv, n - 1, rest, random);
    }
  }
}
