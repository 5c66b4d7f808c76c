/** Time-based and random UUIDs, and what can be read back from them (RFC 4122, section 4.1). */
module UuidTime {
  import opened Arithmetic
  import opened Machine
  import opened UuidClock
  import L = UuidLayout

  const TWO60: nat := 0x1000_0000_0000_0000

  const VARIANT_NCS: nat := 0
  const VARIANT_DCE: nat := 1
  const VARIANT_MICROSOFT: nat := 2
  const VARIANT_OTHER: nat := 3

  /** The fields `uuid_generate_time` fills in from a clock emission. */
  function Assembled(e: Emission, node: Bytes): L.Uuid {
    var high: uint32 := e.Clock() / TWO32;
    L.Uuid(
      e.Clock() % TWO32,
      high % TWO16,
      high / TWO16 % 0x1000 + 0x1000,
      if e.clockSeq < 0x8000 then e.clockSeq + 0x8000 else e.clockSeq,
      node)
  }

  function TimeUuid(e: Emission, node: Bytes): (s: Bytes)
    requires |node| == 6
    ensures |s| == 16
  {
    L.Packed(Assembled(e, node))
  }

  /** The fields `uuid_generate_random` keeps and the bits it overwrites. */
  function Randomized(bytes: Bytes): (s: Bytes)
    requires |bytes| == 16
    ensures |s| == 16
  {
    var u := L.Unpacked(bytes);
    L.Packed(u.(clockSeq := u.clockSeq % 0x4000 + 0x8000, timeHiAndVersion := u.timeHiAndVersion % 0x1000 + 0x4000))
  }

  /** `uuid_time` */
  function DecodedTime(s: Bytes): Reading
    requires |s| == 16
  {
    var u := L.Unpacked(s);
    var high: uint32 := u.timeMid + u.timeHiAndVersion % 0x1000 * TWO16;
    var ticks: uint64 := (u.timeLow + high * TWO32 - TIME_OFFSET) % TWO64;
    Reading(ticks / 10000000, ticks % 10000000 / 10)
  }

  /** `uuid_type` */
  function DecodedType(s: Bytes): nat
    requires |s| == 16
  {
    L.Unpacked(s).timeHiAndVersion / 0x1000 % 0x10
  }

  /** `uuid_variant` */
  function DecodedVariant(s: Bytes): nat
    requires |s| == 16
  {
    var v := L.Unpacked(s).clockSeq;
    if v / 0x8000 % 2 == 0 then VARIANT_NCS
    else if v / 0x4000 % 2 == 0 then VARIANT_DCE
    else if v / 0x2000 % 2 == 0 then VARIANT_MICROSOFT
    else VARIANT_OTHER
  }

  // ----- the bytes -----

  /** The sixty bits of a timestamp, as they lie in the first eight bytes of a UUID. */
  function TimestampOf(s: Bytes): nat
    requires |s| == 16
  {
    s[0] as int * 0x100_0000 + s[1] as int * 0x1_0000 + s[2] as int * 0x100 + s[3] as int
    + s[4] as int * 0x100_0000_0000 + s[5] as int * 0x1_0000_0000
    + s[6] as int % 0x10 * 0x100_0000_0000_0000 + s[7] as int * 0x1_0000_0000_0000
  }

  /** Twelve bits of two bytes, whatever the four above them. */
  lemma LowTwelve(high: uint8, low: uint8)
    ensures (high as int * 0x100 + low as int) % 0x1000 == high as int % 0x10 * 0x100 + low as int
    ensures (high as int * 0x100 + low as int) / 0x1000 == high as int / 0x10
  {
    assert high == high / 0x10 * 0x10 + high % 0x10;
  }

  lemma LowFourteen(high: uint8, low: uint8)
    ensures (high as int * 0x100 + low as int) % 0x4000 == high as int % 0x40 * 0x100 + low as int
  {
    assert high == high / 0x40 * 0x40 + high % 0x40;
  }

  /** The fields of the timestamp and the version, from the bytes. */
  lemma TimestampFields(s: Bytes)
    requires |s| == 16
    ensures var u := L.Unpacked(s);
            && u.timeLow + (u.timeMid + u.timeHiAndVersion % 0x1000 * TWO16) * TWO32 == TimestampOf(s)
            && u.timeHiAndVersion / 0x1000 == s[6] / 0x10
  {
    hide L.Unpacked;
    L.UnpackedBytes(s);
    LowTwelve(s[6], s[7]);
  }

  /** Where the clock, the version, the variant, the sequence number and the node stand. */
  lemma TimeUuidBytes(e: Emission, node: Bytes)
    requires Proper(e) && |node| == 6
    ensures var s := TimeUuid(e, node);
            && TimestampOf(s) == e.Clock() % TWO60
            && s[6] / 0x10 == 1
            && s[8] == 0x80 + e.clockSeq / 0x100 && s[9] == e.clockSeq % 0x100
            && s[10..] == node
  {
    hide L.Packed, L.Unpacked, TimestampOf;
    var u, s := Assembled(e, node), TimeUuid(e, node);
    L.UnpackedPacked(u);
    TimestampFields(s);
    SplitClock(e.Clock());
    SequenceBytes(e, node);
    L.UnpackedBytes(s);
  }

  lemma SequenceBytes(e: Emission, node: Bytes)
    requires Proper(e) && |node| == 6
    ensures TimeUuid(e, node)[8] == 0x80 + e.clockSeq / 0x100 && TimeUuid(e, node)[9] == e.clockSeq % 0x100
  {
    hide L.Packed;
    L.PackedBytes(Assembled(e, node));
  }

  /** The time, the type and the variant that are read from any sixteen bytes, whoever made them. */
  lemma DecodedFromBytes(s: Bytes)
    requires |s| == 16
    ensures DecodedTime(s).Micros() ==
            (TimestampOf(s) - 141427 * 86400 * 10000000) % 0x1_0000_0000_0000_0000 / 10
    ensures 0 <= DecodedTime(s).usec < 1000000
    ensures DecodedType(s) == s[6] / 0x10
    ensures DecodedVariant(s) ==
            if s[8] < 0x80 then 0 else if s[8] < 0xc0 then 1 else if s[8] < 0xe0 then 2 else 3
  {
    hide L.Unpacked, TimestampOf, DecodedVariant;
    EpochOffset();
    TimestampFields(s);
    VariantFromByte(s);
    TicksAsMicros((TimestampOf(s) - TIME_OFFSET) % TWO64);
  }

  lemma VariantFromByte(s: Bytes)
    requires |s| == 16
    ensures DecodedVariant(s) ==
            if s[8] < 0x80 then 0 else if s[8] < 0xc0 then 1 else if s[8] < 0xe0 then 2 else 3
  {
    hide L.Unpacked;
    L.UnpackedBytes(s);
    TopBits(s[8], s[9]);
  }

  lemma TopBits(high: uint8, low: uint8)
    ensures var v := high as int * 0x100 + low as int;
            && v / 0x8000 % 2 == high / 0x80 % 2 && v / 0x4000 % 2 == high / 0x40 % 2 && v / 0x2000 % 2 == high / 0x20 % 2
  {
  }

  /** A random UUID is the bytes drawn but for the version and the variant. */
  lemma RandomizedBytes(bytes: Bytes)
    requires |bytes| == 16
    ensures Randomized(bytes) == bytes[6 := 0x40 + bytes[6] % 0x10][8 := 0x80 + bytes[8] % 0x40]
  {
    hide L.Packed, L.Unpacked;
    var u, w := L.Unpacked(bytes), bytes[6 := 0x40 + bytes[6] % 0x10][8 := 0x80 + bytes[8] % 0x40];
    L.UnpackedBytes(bytes);
    L.UnpackedBytes(w);
    LowTwelve(bytes[6], bytes[7]);
    LowFourteen(bytes[8], bytes[9]);
    assert w[10..] == bytes[10..];
    assert L.Unpacked(w) ==
           u.(clockSeq := u.clockSeq % 0x4000 + 0x8000, timeHiAndVersion := u.timeHiAndVersion % 0x1000 + 0x4000);
    L.PackedUnpacked(w);
  }

  /**
   Decoding the time of a generated UUID gives the reading, a microsecond later on the tenth
   adjustment, exactly if the clock fits its 60 bits and the time since 1970, counted in ticks,
   fits an unsigned 64-bit number: it must not be negative.
   */
  lemma DecodedTimeOfTimeUuid(e: Emission, node: Bytes)
    requires Proper(e) && |node| == 6
    ensures DecodedTime(TimeUuid(e, node)).Micros() == e.reading.Micros() + e.adjustment / MAX_ADJUSTMENT <==>
            e.Clock() < TWO60 && 0 <= e.Ticks() - TIME_OFFSET < TWO64
    ensures 0 <= DecodedTime(TimeUuid(e, node)).usec < 1000000
  {
    hide L.Packed, L.Unpacked, DecodedTime, TimeUuid;
    var t: uint64 := (e.Clock() % TWO60 - TIME_OFFSET) % TWO64;
    var since := e.Ticks() - TIME_OFFSET;
    DecodedTicks(e, node);
    TicksAsMicros(t);
    assert since / 10 == e.reading.Micros() + e.adjustment / MAX_ADJUSTMENT;
    ClockIsTicksWrapped(e);
    DroppedBits(since, e.Clock(), t);
  }

  /** Below 2^60 that is: exactly if the clock is not before 1970. */
  lemma DecodedTimeBelow60(e: Emission, node: Bytes)
    requires Proper(e) && |node| == 6 && 0 <= e.Ticks() < TWO60
    ensures DecodedTime(TimeUuid(e, node)).Micros() == e.reading.Micros() + e.adjustment / MAX_ADJUSTMENT <==>
            e.Clock() >= TIME_OFFSET
  {
    hide DecodedTime, TimeUuid;
    DecodedTimeOfTimeUuid(e, node);
    ClockIsTicksWrapped(e);
  }

  /** One second before 1970 decodes to a time far in the future. */
  lemma DecodedBefore1970(seqNo: uint16, node: Bytes)
    requires seqNo < SEQUENCES && |node| == 6
    ensures DecodedTime(TimeUuid(Emission(Reading(-1, 0), 0, seqNo), node)).sec == (TWO64 - 10000000) / 10000000
  {
    hide DecodedTime, TimeUuid;
    DecodedTicks(Emission(Reading(-1, 0), 0, seqNo), node);
  }

  /** The decoder sees the low sixty bits of the clock and subtracts the offset as an unsigned number. */
  lemma DecodedTicks(e: Emission, node: Bytes)
    requires Proper(e) && |node| == 6
    ensures var t := (e.Clock() % TWO60 - TIME_OFFSET) % TWO64;
            DecodedTime(TimeUuid(e, node)) == Reading(t / 10000000, t % 10000000 / 10)
  {
    hide L.Packed, L.Unpacked;
    L.UnpackedPacked(Assembled(e, node));
    SplitClock(e.Clock());
  }

  lemma SplitClock(clock: uint64)
    ensures var high := clock / TWO32;
            clock % TWO32 + (high % TWO16 + (high / TWO16 % 0x1000) * TWO16) * TWO32 == clock % TWO60
  {
    var high: nat := clock / TWO32;
    var top: nat := high / TWO16 / 0x1000;
    assert clock == high * TWO32 + clock % TWO32;
    assert high == (top * 0x1000 + high / TWO16 % 0x1000) * TWO16 + high % TWO16;
  }

  lemma TicksAsMicros(t: nat)
    ensures Reading(t / 10000000, t % 10000000 / 10).Micros() == t / 10
    ensures t % 10000000 / 10 < 1000000
  {
    assert t == t / 10000000 * 10000000 + t % 10000000;
  }

  /** What is decoded differs from what was encoded by a multiple of 2^60, so no rounding to microseconds hides it. */
  lemma DroppedBits(since: int, clock: uint64, t: uint64)
    requires clock == (since + TIME_OFFSET) % TWO64
    requires t == (clock % TWO60 - TIME_OFFSET) % TWO64
    ensures t / 10 == since / 10 <==> clock < TWO60 && 0 <= since < TWO64
  {
    var wraps := (since + TIME_OFFSET) / TWO64;
    var top := (clock as int) / TWO60;
    var borrow := (clock % TWO60 - TIME_OFFSET) / TWO64;
    var q := 16 * (wraps + borrow) + top;
    assert since == t + TWO60 * q;
    if q == 0 {
      assert top == 0;
    } else {
      assert since / 10 != t / 10;
    }
  }

  lemma TimeUuidTypeAndVariant(e: Emission, node: Bytes)
    requires Proper(e) && |node| == 6
    ensures DecodedType(TimeUuid(e, node)) == 1
    ensures DecodedVariant(TimeUuid(e, node)) == VARIANT_DCE
  {
    hide L.Packed, L.Unpacked;
    L.UnpackedPacked(Assembled(e, node));
  }

  /** A random UUID has type 4 and the DCE variant; every other bit is the random one. */
  lemma RandomUuidTypeAndVariant(bytes: Bytes)
    requires |bytes| == 16
    ensures DecodedType(Randomized(bytes)) == 4
    ensures DecodedVariant(Randomized(bytes)) == VARIANT_DCE
    ensures var u, r := L.Unpacked(bytes), L.Unpacked(Randomized(bytes));
            && r.timeLow == u.timeLow && r.timeMid == u.timeMid && r.node == u.node
            && r.timeHiAndVersion % 0x1000 == u.timeHiAndVersion % 0x1000
            && r.clockSeq % 0x4000 == u.clockSeq % 0x4000
  {
    hide L.Packed, L.Unpacked;
    var u := L.Unpacked(bytes);
    L.UnpackedPacked(u.(clockSeq := u.clockSeq % 0x4000 + 0x8000, timeHiAndVersion := u.timeHiAndVersion % 0x1000 + 0x4000));
  }

  /** Each field of the timestamp is a part of its low sixty bits ... */
  lemma LowParts(clock: uint64)
    ensures var l := clock % TWO60;
            && clock % TWO32 == l % TWO32
            && clock / TWO32 % TWO16 == l / TWO32 % TWO16
            && clock / TWO32 / TWO16 % 0x1000 == l / TWO32 / TWO16
  {
    var l: nat := clock % TWO60;
    var top: nat := clock / TWO60;
    assert clock == top * TWO60 + l;
    assert clock / TWO32 == top * 0x1000_0000 + l / TWO32;
    assert clock / TWO32 / TWO16 == top * 0x1000 + l / TWO32 / TWO16;
  }

  /** ... and together they are all of them. */
  lemma SameParts(c: uint64, d: uint64)
    ensures c % TWO60 == d % TWO60 <==>
            && c % TWO32 == d % TWO32
            && c / TWO32 % TWO16 == d / TWO32 % TWO16
            && c / TWO32 / TWO16 % 0x1000 == d / TWO32 / TWO16 % 0x1000
  {
    if c % TWO60 == d % TWO60 {
      LowParts(c);
      LowParts(d);
    } else {
      SplitClock(c);
      SplitClock(d);
    }
  }

  lemma AssembledInjective(a: Emission, b: Emission, m: Bytes, n: Bytes)
    requires Proper(a) && Proper(b)
    ensures Assembled(a, m) == Assembled(b, n) <==>
            a.Clock() % TWO60 == b.Clock() % TWO60 && a.clockSeq == b.clockSeq && m == n
  {
    SameParts(a.Clock(), b.Clock());
  }

  /** The 16 bytes determine, and are determined by, sixty bits of the clock, the sequence number and the node. */
  lemma TimeUuidInjective(a: Emission, b: Emission, m: Bytes, n: Bytes)
    requires Proper(a) && |m| == 6 && Proper(b) && |n| == 6
    ensures TimeUuid(a, m) == TimeUuid(b, n) <==>
            a.Clock() % TWO60 == b.Clock() % TWO60 && a.clockSeq == b.clockSeq && m == n
  {
    hide L.Packed, L.Unpacked, Proper;
    L.UnpackedPacked(Assembled(a, m));
    L.UnpackedPacked(Assembled(b, n));
    AssembledInjective(a, b, m, n);
  }

  /**
   Over any run of one node with fewer than 2^14 backward steps, two UUIDs are the same
   exactly if they follow one another across the tenth adjustment of one microsecond, or the
   60-bit timestamp wrapped around between them.
   */
  lemma RunUuidsUnique(readings: seq<Reading>, random: uint16, node: Bytes, i: nat, j: nat)
    requires forall tv :: tv in readings ==> tv.Usable()
    requires BackwardSteps(INITIAL, readings, random) < SEQUENCES
    requires i < j < |Run(INITIAL, readings, random)| && |node| == 6
    ensures var es := Run(INITIAL, readings, random);
            TimeUuid(es[i], node) == TimeUuid(es[j], node) <==>
            || (j == i + 1 && Collide(es[i], es[j]))
            || (WrapsApart(es[i], es[j], TWO60) && es[i].clockSeq == es[j].clockSeq)
  {
    hide Run, TimeUuid, BackwardSteps, Collide, WrapsApart, Epochs;
    var es := Run(INITIAL, readings, random);
    RunIsChain(readings, random);
    ChainUniqueness(es, i, j);
    TimeUuidInjective(es[i], es[j], node, node);
    SameLowBits(es[i], es[j]);
  }

  lemma SameLowBits(a: Emission, b: Emission)
    ensures a.Clock() % TWO60 == b.Clock() % TWO60 <==> a.Ticks() == b.Ticks() || WrapsApart(a, b, TWO60)
  {
    LowBits(a);
    LowBits(b);
    SameRemainder(a.Ticks(), b.Ticks(), TWO60);
  }

  lemma LowBits(e: Emission)
    ensures e.Clock() % TWO60 == e.Ticks() % TWO60
  {
    ClockIsTicksWrapped(e);
    RemainderOfRemainder(e.Ticks());
  }

  lemma RemainderOfRemainder(x: int)
    ensures x % TWO64 % TWO60 == x % TWO60
  {
    var y := x % TWO64;
    assert x == y + TWO60 * (16 * (x / TWO64));
    MultipleIsZero(16 * (x / TWO64), TWO60);
    SameRemainder(y, x, TWO60);
  }

  lemma MultipleIsZero(q: int, period: nat)
    requires period > 0
    ensures period * q % period == 0
  {
    var r := period * q % period;
    assert period * q == period * (period * q / period) + r;
    assert period * (q - period * q / period) + (0 - r) == 0;
    SmallMultipleOf(q - period * q / period, 0 - r, period);
  }

  /** With readings whose timestamps fit sixty bits only the tenth adjustment makes two UUIDs the same. */
  lemma RunUuidsUniqueInRange(readings: seq<Reading>, random: uint16, node: Bytes, i: nat, j: nat)
    requires forall tv :: tv in readings ==> tv.Usable() && tv.Within(TWO60)
    requires BackwardSteps(INITIAL, readings, random) < SEQUENCES
    requires i < j < |Run(INITIAL, readings, random)| && |node| == 6
    ensures var es := Run(INITIAL, readings, random);
            TimeUuid(es[i], node) == TimeUuid(es[j], node) <==> j == i + 1 && Collide(es[i], es[j])
  {
    hide Run, TimeUuid, BackwardSteps, Collide, WrapsApart, Epochs;
    var es := Run(INITIAL, readings, random);
    RunIsChain(readings, random);
    RunReadings(INITIAL, readings, random);
    RunUuidsUnique(readings, random, node, i, j);
    InRange(es[i], es[j], TWO60);
  }
}
