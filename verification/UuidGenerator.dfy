/** The static variables of the UUID generator and the calls that update them. */
module UuidGenerator {
  import opened Wrappers
  import opened Machine
  import opened UuidClock
  import opened UuidTime
  import L = UuidLayout

  /** One call of `get_clock`: readings are taken until one is not retried, or none are left. */
  function NextEmission(st: State, readings: seq<Reading>, random: uint16): (r: Option<(State, Emission, nat)>)
    ensures r.Some? ==> 0 < r.value.2 <= |readings|
    decreases |readings|
  {
    if readings == [] then None else
    match Step(st, readings[0], random)
    case (st', Some(e)) => Some((st', e, 1))
    case (st', None) =>
      match NextEmission(st', readings[1..], random)
      case None => None
      case Some((st'', e, n)) => Some((st'', e, n + 1))
  }

  /** A call takes the next emission of the run off its front, so calls in a row emit the run. */
  lemma {:induction false} NextEmissionIsRun(st: State, readings: seq<Reading>, random: uint16)
    ensures match NextEmission(st, readings, random)
            case None => Run(st, readings, random) == []
            case Some((st', e, n)) => Run(st, readings, random) == [e] + Run(st', readings[n..], random)
    decreases |readings|
  {
    if readings != [] {
      var (st', o) := Step(st, readings[0], random);
      if o.None? {
        NextEmissionIsRun(st', readings[1..], random);
        match NextEmission(st', readings[1..], random)
        case None =>
        case Some((st'', e, n)) => assert readings[1..][n..] == readings[n + 1..];
      }
    }
  }

  class Generator {
    var adjustment: nat
    var last: Reading
    var clockSeq: uint16
    var nodeId: Bytes
    var hasInit: bool

    ghost function Clock(): State
      reads this
    {
      State(adjustment, last, clockSeq)
    }

    ghost predicate Valid()
      reads this
    {
      |nodeId| == 6
    }

    constructor ()
      ensures Valid() && !hasInit && Clock() == INITIAL
    {
      adjustment, last, clockSeq := 0, Reading(0, 0), 0;
      nodeId, hasInit := [0, 0, 0, 0, 0, 0], false;
    }

    /**
     `get_clock` on the clock readings still to come; `random` stands for the bytes drawn on
     first use.  Fails only when the readings run out while every one of them must be retried.
     */
    method GetClock(readings: seq<Reading>, random: uint16)
      returns (ok: bool, used: nat, clockHigh: uint32, clockLow: uint32, retClockSeq: uint16)
      modifies this`adjustment, this`last, this`clockSeq
      ensures match NextEmission(old(Clock()), readings, random)
              case None => !ok
              case Some((st, e, n)) =>
                && ok && used == n && Clock() == st
                && clockHigh == e.Clock() / TWO32 && clockLow == e.Clock() % TWO32 && retClockSeq == e.clockSeq
    {
      ok, used, clockHigh, clockLow, retClockSeq := false, 0, 0, 0, 0;
      ghost var before := NextEmission(Clock(), readings, random);
      while used < |readings|
        invariant 0 <= used <= |readings|
        invariant before == match NextEmission(Clock(), readings[used..], random)
                            case None => None
                            case Some((st, e, n)) => Some((st, e, n + used))
        decreases |readings| - used
      {
        ghost var st := Clock();
        var tv := readings[used];
        assert readings[used..][1..] == readings[used + 1..];
        used := used + 1;
        if last.sec == 0 && last.usec == 0 {
          clockSeq := random % SEQUENCES;
          last := Reading(tv.sec - 1, tv.usec);
        }
        assert Clock() == Initialized(st, tv, random);
        if tv.sec < last.sec || (tv.sec == last.sec && tv.usec < last.usec) {
          clockSeq := (clockSeq + 1) % SEQUENCES;
          adjustment := 0;
          last := tv;
        } else if tv.sec == last.sec && tv.usec == last.usec {
          if adjustment >= MAX_ADJUSTMENT {
            assert Step(st, tv, random) == (Clock(), None);
            continue;
          }
          adjustment := adjustment + 1;
        } else {
          adjustment := 0;
          last := tv;
        }
        assert Step(st, tv, random) == (Clock(), Some(Emission(tv, adjustment, clockSeq)));
        var clockReg: uint64 := (tv.usec * 10 + adjustment + tv.sec * 10000000 + TIME_OFFSET) % TWO64;
        ok, clockHigh, clockLow, retClockSeq := true, clockReg / TWO32, clockReg % TWO32, clockSeq;
        return;
      }
    }

    /** The node id is the hardware address if there is one, else random with the multicast bit set. */
    method InitNode(hardware: Option<Bytes>, random: Bytes)
      requires Valid() && |random| == 6 && (hardware.Some? ==> |hardware.value| == 6)
      modifies this`nodeId, this`hasInit
      ensures Valid() && hasInit
      ensures old(hasInit) ==> nodeId == old(nodeId)
      ensures !old(hasInit) && hardware.Some? ==> nodeId == hardware.value
      ensures !old(hasInit) && hardware.None? ==>
                nodeId[1..] == random[1..] && nodeId[0] % 2 == 1 && nodeId[0] / 2 == random[0] / 2
    {
      if !hasInit {
        match hardware {
          case Some(address) => nodeId := address;
          case None => nodeId := random[0 := random[0] / 2 * 2 + 1];
        }
        hasInit := true;
      }
    }

    /** `uuid_generate_time`, once the node id is there. */
    method GenerateTime(readings: seq<Reading>, random: uint16, out: array<uint8>) returns (ok: bool, used: nat)
      requires Valid() && hasInit && out.Length == 16
      modifies this`adjustment, this`last, this`clockSeq, out
      ensures Valid() && nodeId == old(nodeId)
      ensures match NextEmission(old(Clock()), readings, random)
              case None => !ok
              case Some((st, e, n)) => ok && used == n && Clock() == st && out[..] == TimeUuid(e, nodeId)
    {
      var clockMid, timeLow, seqNumber;
      ok, used, clockMid, timeLow, seqNumber := GetClock(readings, random);
      if ok {
        var uu := L.Uuid(
          timeLow,
          clockMid % TWO16,
          clockMid / TWO16 % 0x1000 + 0x1000,
          if seqNumber < 0x8000 then seqNumber + 0x8000 else seqNumber,
          nodeId);
        L.UuidPack(uu, out);
      }
    }

    /** `uuid_generate_random` on the sixteen bytes it draws. */
    static method GenerateRandom(random: Bytes, out: array<uint8>)
      requires |random| == 16 && out.Length == 16
      modifies out
      ensures out[..] == Randomized(random)
    {
      hide L.Packed, L.Unpacked;
      var buf := new uint8[16](i requires 0 <= i < 16 => random[i]);
      assert buf[..] == random;
      var uu := L.UuidUnpack(buf);
      uu := uu.(clockSeq := uu.clockSeq % 0x4000 + 0x8000, timeHiAndVersion := uu.timeHiAndVersion % 0x1000 + 0x4000);
      L.UuidPack(uu, out);
    }
  }
}
