/** The value of an `interaction.BaseStationInfo` message, and what parsing, printing and merging mean for it. */
module BaseStationInfoSpec {
  import opened Wrappers
  import opened Machine
  import opened WireFormat
  import opened FieldFold
  import opened FieldWriters

  datatype BaseStation = BaseStation(
    hostname: Option<Bytes>,
    bsId: Option<uint32>,
    ingroupAddr: Option<uint32>,
    bsFreq: Option<Bytes>,
    bsLocation: Option<Bytes>,
    bsOrientation: Option<Bytes>,
    ledStatus: Option<bool>,
    motorStatus: Option<bool>,
    motorSpeed: Option<Bytes>,
    unknown: seq<Field>
  )

  const EMPTY := BaseStation(None, None, None, None, None, None, None, None, None, [])

  /** The fields this class does not recognise, by number and wire type. */
  predicate IsUnknown(f: Field) {
    && !(f.payload.Delimited? && (f.number == 1 || 4 <= f.number <= 6 || f.number == 9))
    && !(f.payload.Varint? && (f.number == 2 || f.number == 3 || f.number == 7 || f.number == 8))
  }

  /** One turn of the tag-dispatch loop. */
  function Absorb(m: BaseStation, f: Field): Option<BaseStation> {
    if IsUnknown(f) then Some(m.(unknown := m.unknown + [f]))
    else if f.number == 1 then Some(m.(hostname := Some(f.payload.data)))
    else if f.number == 2 then Some(m.(bsId := Some(ToUInt32(f.payload.v))))
    else if f.number == 3 then Some(m.(ingroupAddr := Some(ToUInt32(f.payload.v))))
    else if f.number == 4 then Some(m.(bsFreq := Some(f.payload.data)))
    else if f.number == 5 then Some(m.(bsLocation := Some(f.payload.data)))
    else if f.number == 6 then Some(m.(bsOrientation := Some(f.payload.data)))
    else if f.number == 7 then Some(m.(ledStatus := Some(f.payload.v != 0)))
    else if f.number == 8 then Some(m.(motorStatus := Some(f.payload.v != 0)))
    else Some(m.(motorSpeed := Some(f.payload.data)))
  }

  function Merge(a: BaseStation, b: BaseStation): BaseStation {
    BaseStation(
      Later(a.hostname, b.hostname),
      Later(a.bsId, b.bsId),
      Later(a.ingroupAddr, b.ingroupAddr),
      Later(a.bsFreq, b.bsFreq),
      Later(a.bsLocation, b.bsLocation),
      Later(a.bsOrientation, b.bsOrientation),
      Later(a.ledStatus, b.ledStatus),
      Later(a.motorStatus, b.motorStatus),
      Later(a.motorSpeed, b.motorSpeed),
      a.unknown + b.unknown)
  }

  /** The fields a serializer emits, in the order it emits them. */
  function ToFields(m: BaseStation): seq<Field> {
    OptString(1, m.hostname) + (OptUInt32(2, m.bsId) + (OptUInt32(3, m.ingroupAddr)
    + (OptString(4, m.bsFreq) + LaterFields(m))))
  }

  function LaterFields(m: BaseStation): seq<Field> {
    OptString(5, m.bsLocation) + (OptString(6, m.bsOrientation) + (OptBool(7, m.ledStatus)
    + (OptBool(8, m.motorStatus) + (OptString(9, m.motorSpeed) + m.unknown))))
  }

  function Parse(s: Bytes): Option<BaseStation> {
    ParseInto(Absorb, EMPTY, s)
  }

  function Serialize(m: BaseStation): Bytes {
    EncodeFields(ToFields(m))
  }

  predicate HasRequired(m: BaseStation) {
    m.hostname.Some? && m.bsId.Some? && m.ingroupAddr.Some?
  }

  /** The unknown fields are ones a parser would have kept as unknown. */
  predicate WellFormed(m: BaseStation) {
    forall f :: f in m.unknown ==> Shaped(f) && IsUnknown(f)
  }

  lemma AbsorbIsMerge(a: BaseStation, f: Field)
    ensures Absorb(a, f) == MergeParsed(Merge, a, Absorb(EMPTY, f))
  {
    assert [] + [f] == [f];
    assert a.unknown + [] == a.unknown;
  }

  lemma MergeIntoEmpty(b: BaseStation)
    ensures Merge(EMPTY, b) == b
  {
    assert [] + b.unknown == b.unknown;
  }

  lemma AbsorbMerges()
    ensures MergesFields(Absorb, Merge, EMPTY)
  {
    hide Absorb;
    forall a ensures Merge(a, EMPTY) == a {
      assert a.unknown + [] == a.unknown;
    }
    forall a, b, c ensures Merge(Merge(a, b), c) == Merge(a, Merge(b, c)) {
    }
    forall a, f ensures Absorb(a, f) == MergeParsed(Merge, a, Absorb(EMPTY, f)) {
      AbsorbIsMerge(a, f);
    }
  }

  lemma {:induction false} FoldUnknown(m: BaseStation, fs: seq<Field>)
    requires forall f :: f in fs ==> IsUnknown(f)
    ensures Fold(Absorb, m, fs) == Some(m.(unknown := m.unknown + fs))
    decreases |fs|
  {
    if fs == [] {
      assert m.unknown + fs == m.unknown;
    } else {
      FoldUnknown(Absorb(m, fs[0]).value, fs[1..]);
      assert m.unknown + [fs[0]] + fs[1..] == m.unknown + fs;
    }
  }

  /** The fields from `bs_location` on rebuild the members after `bs_freq`. */
  lemma FoldLaterFields(m: BaseStation, a: BaseStation)
    requires WellFormed(m)
    requires a == BaseStation(m.hostname, m.bsId, m.ingroupAddr, m.bsFreq, None, None, None, None, None, [])
    ensures Fold(Absorb, a, LaterFields(m)) == Some(m)
  {
    hide Fold;
    var r9 := OptString(9, m.motorSpeed) + m.unknown;
    var r8 := OptBool(8, m.motorStatus) + r9;
    var r7 := OptBool(7, m.ledStatus) + r8;
    var r6 := OptString(6, m.bsOrientation) + r7;
    var m5 := a.(bsLocation := m.bsLocation);
    var m6 := m5.(bsOrientation := m.bsOrientation);
    var m7 := m6.(ledStatus := m.ledStatus);
    var m8 := m7.(motorStatus := m.motorStatus);
    var m9 := m8.(motorSpeed := m.motorSpeed);
    FoldOptional(Absorb, a, OptString(5, m.bsLocation), m5, r6);
    FoldOptional(Absorb, m5, OptString(6, m.bsOrientation), m6, r7);
    FoldOptional(Absorb, m6, OptBool(7, m.ledStatus), m7, r8);
    FoldOptional(Absorb, m7, OptBool(8, m.motorStatus), m8, r9);
    FoldOptional(Absorb, m8, OptString(9, m.motorSpeed), m9, m.unknown);
    FoldUnknown(m9, m.unknown);
    assert m9.unknown + m.unknown == m.unknown;
  }

  /** Absorbing the emitted fields into the empty message rebuilds the message. */
  lemma FoldToFields(m: BaseStation)
    requires WellFormed(m)
    ensures Fold(Absorb, EMPTY, ToFields(m)) == Some(m)
  {
    hide Fold, LaterFields;
    var r5 := LaterFields(m);
    var r4 := OptString(4, m.bsFreq) + r5;
    var r3 := OptUInt32(3, m.ingroupAddr) + r4;
    var r2 := OptUInt32(2, m.bsId) + r3;
    var m1 := EMPTY.(hostname := m.hostname);
    var m2 := m1.(bsId := m.bsId);
    var m3 := m2.(ingroupAddr := m.ingroupAddr);
    var m4 := m3.(bsFreq := m.bsFreq);
    FoldOptional(Absorb, EMPTY, OptString(1, m.hostname), m1, r2);
    FoldOptional(Absorb, m1, OptUInt32(2, m.bsId), m2, r3);
    FoldOptional(Absorb, m2, OptUInt32(3, m.ingroupAddr), m3, r4);
    FoldOptional(Absorb, m3, OptString(4, m.bsFreq), m4, r5);
    FoldLaterFields(m, m4);
  }

  /** Parsing any input onto a well-formed message keeps it so. */
  lemma ParsedOntoWellFormed(m: BaseStation, s: Bytes)
    requires WellFormed(m)
    ensures var r := ParseInto(Absorb, m, s); r.Some? ==> WellFormed(r.value)
  {
    ParseKeeps(Absorb, x => WellFormed(x), m, s);
  }

  lemma ToFieldsShaped(m: BaseStation)
    requires WellFormed(m)
    ensures forall f :: f in ToFields(m) ==> Shaped(f)
  {
    assert forall f :: f in LaterFields(m) ==> Shaped(f);
  }

  /** Printing and parsing gives the message back, for every pattern of present members. */
  lemma RoundTrip(m: BaseStation)
    requires WellFormed(m) && |Serialize(m)| < TWO31
    ensures Parse(Serialize(m)) == Some(m)
  {
    hide Fold, EncodeFields, Absorb, ToFields, WellFormed, Shaped;
    ToFieldsShaped(m);
    ParseOfEncoding(Absorb, EMPTY, ToFields(m));
    FoldToFields(m);
  }

  /** A serialization is its members one after the other, then the unknown fields. */
  lemma SerializePieces(m: BaseStation)
    ensures Serialize(m) ==
            [] + EncodeFields(OptString(1, m.hostname))
            + EncodeFields(OptUInt32(2, m.bsId))
            + EncodeFields(OptUInt32(3, m.ingroupAddr))
            + EncodeFields(OptString(4, m.bsFreq))
            + EncodeFields(OptString(5, m.bsLocation))
            + EncodeFields(OptString(6, m.bsOrientation))
            + EncodeFields(OptBool(7, m.ledStatus))
            + EncodeFields(OptBool(8, m.motorStatus))
            + EncodeFields(OptString(9, m.motorSpeed))
            + EncodeFields(m.unknown)
  {
    hide EncodeFields;
    var r8 := OptString(9, m.motorSpeed) + m.unknown;
    var r7 := OptBool(8, m.motorStatus) + r8;
    var r6 := OptBool(7, m.ledStatus) + r7;
    var r5 := OptString(6, m.bsOrientation) + r6;
    var r4 := OptString(5, m.bsLocation) + r5;
    var r3 := OptString(4, m.bsFreq) + r4;
    var r2 := OptUInt32(3, m.ingroupAddr) + r3;
    var r1 := OptUInt32(2, m.bsId) + r2;
    Emit([], OptString(1, m.hostname), r1);
    var o1 := [] + EncodeFields(OptString(1, m.hostname));
    Emit(o1, OptUInt32(2, m.bsId), r2);
    var o2 := o1 + EncodeFields(OptUInt32(2, m.bsId));
    Emit(o2, OptUInt32(3, m.ingroupAddr), r3);
    var o3 := o2 + EncodeFields(OptUInt32(3, m.ingroupAddr));
    Emit(o3, OptString(4, m.bsFreq), r4);
    var o4 := o3 + EncodeFields(OptString(4, m.bsFreq));
    Emit(o4, OptString(5, m.bsLocation), r5);
    var o5 := o4 + EncodeFields(OptString(5, m.bsLocation));
    Emit(o5, OptString(6, m.bsOrientation), r6);
    var o6 := o5 + EncodeFields(OptString(6, m.bsOrientation));
    Emit(o6, OptBool(7, m.ledStatus), r7);
    var o7 := o6 + EncodeFields(OptBool(7, m.ledStatus));
    Emit(o7, OptBool(8, m.motorStatus), r8);
    var o8 := o7 + EncodeFields(OptBool(8, m.motorStatus));
    Emit(o8, OptString(9, m.motorSpeed), m.unknown);
  }

  // ----- member by member -----

  /** Of two values of a member the later one counts. */
  lemma MergeMembers(a: BaseStation, b: BaseStation)
    ensures var m := Merge(a, b);
            && m.hostname == (if b.hostname.Some? then b.hostname else a.hostname)
            && m.bsId == (if b.bsId.Some? then b.bsId else a.bsId)
            && m.ingroupAddr == (if b.ingroupAddr.Some? then b.ingroupAddr else a.ingroupAddr)
            && m.bsFreq == (if b.bsFreq.Some? then b.bsFreq else a.bsFreq)
            && m.bsLocation == (if b.bsLocation.Some? then b.bsLocation else a.bsLocation)
            && m.bsOrientation == (if b.bsOrientation.Some? then b.bsOrientation else a.bsOrientation)
            && m.ledStatus == (if b.ledStatus.Some? then b.ledStatus else a.ledStatus)
            && m.motorStatus == (if b.motorStatus.Some? then b.motorStatus else a.motorStatus)
            && m.motorSpeed == (if b.motorSpeed.Some? then b.motorSpeed else a.motorSpeed)
            && m.unknown == a.unknown + b.unknown
  {
  }

  /** A field of the right number and wire type overwrites its member. */
  lemma AbsorbMembers(m: BaseStation, d: Bytes, v: uint64)
    ensures Absorb(m, Field(1, Delimited(d))) == Some(m.(hostname := Some(d)))
    ensures Absorb(m, Field(2, Varint(v))) == Some(m.(bsId := Some(v % 0x1_0000_0000)))
    ensures Absorb(m, Field(3, Varint(v))) == Some(m.(ingroupAddr := Some(v % 0x1_0000_0000)))
    ensures Absorb(m, Field(4, Delimited(d))) == Some(m.(bsFreq := Some(d)))
    ensures Absorb(m, Field(5, Delimited(d))) == Some(m.(bsLocation := Some(d)))
    ensures Absorb(m, Field(6, Delimited(d))) == Some(m.(bsOrientation := Some(d)))
    ensures Absorb(m, Field(7, Varint(v))) == Some(m.(ledStatus := Some(v != 0)))
    ensures Absorb(m, Field(8, Varint(v))) == Some(m.(motorStatus := Some(v != 0)))
    ensures Absorb(m, Field(9, Delimited(d))) == Some(m.(motorSpeed := Some(d)))
  {
  }

  /** Every other field is kept, in the order it came. */
  lemma AbsorbOthers(m: BaseStation, f: Field)
    requires f.payload.Delimited? ==> f.number !in {1, 4, 5, 6, 9}
    requires f.payload.Varint? ==> f.number !in {2, 3, 7, 8}
    ensures Absorb(m, f) == Some(m.(unknown := m.unknown + [f]))
  {
  }

  /** The bytes: each present member behind its tag, in the order of the numbers, then the unknown fields. */
  lemma SerializedBytes(m: BaseStation)
    ensures Serialize(m) ==
            []
            + StringOnWire(0x0a, m.hostname)
            + VarintOnWire(0x10, m.bsId)
            + VarintOnWire(0x18, m.ingroupAddr)
            + StringOnWire(0x22, m.bsFreq)
            + StringOnWire(0x2a, m.bsLocation)
            + StringOnWire(0x32, m.bsOrientation)
            + BoolOnWire(0x38, m.ledStatus)
            + BoolOnWire(0x40, m.motorStatus)
            + StringOnWire(0x4a, m.motorSpeed)
            + EncodeFields(m.unknown)
  {
    hide EncodeFields, StringOnWire, VarintOnWire, BoolOnWire, OptString, OptUInt32, OptBool, Serialize;
    SerializePieces(m);
    StringMember(1, m.hostname);
    UInt32Member(2, m.bsId);
    UInt32Member(3, m.ingroupAddr);
    StringMember(4, m.bsFreq);
    StringMember(5, m.bsLocation);
    StringMember(6, m.bsOrientation);
    BoolMember(7, m.ledStatus);
    BoolMember(8, m.motorStatus);
    StringMember(9, m.motorSpeed);
  }

  /** One more member at the end of any input that parses sets that member and no other ("Last One Wins"). */
  lemma LastOneWins(s: Bytes, d: Bytes, b: bool, u: uint32)
    requires Parse(s).Some? && |d| < 0x8000_0000
    ensures var m := Parse(s).value;
            && Parse(s + StringOnWire(0x0a, Some(d))) == Some(m.(hostname := Some(d)))
            && Parse(s + VarintOnWire(0x10, Some(u))) == Some(m.(bsId := Some(u)))
            && Parse(s + VarintOnWire(0x18, Some(u))) == Some(m.(ingroupAddr := Some(u)))
            && Parse(s + StringOnWire(0x22, Some(d))) == Some(m.(bsFreq := Some(d)))
            && Parse(s + StringOnWire(0x2a, Some(d))) == Some(m.(bsLocation := Some(d)))
            && Parse(s + StringOnWire(0x32, Some(d))) == Some(m.(bsOrientation := Some(d)))
            && Parse(s + BoolOnWire(0x38, Some(b))) == Some(m.(ledStatus := Some(b)))
            && Parse(s + BoolOnWire(0x40, Some(b))) == Some(m.(motorStatus := Some(b)))
            && Parse(s + StringOnWire(0x4a, Some(d))) == Some(m.(motorSpeed := Some(d)))
  {
    hide ParseInto, Absorb, StringOnWire, VarintOnWire, BoolOnWire;
    var m := Parse(s).value;
    AbsorbMembers(m, d, if b then 1 else 0);
    AbsorbMembers(m, d, u);
    OneMoreString(Absorb, EMPTY, s, 1, d);
    OneMoreVarint(Absorb, EMPTY, s, 2, u);
    OneMoreVarint(Absorb, EMPTY, s, 3, u);
    OneMoreString(Absorb, EMPTY, s, 4, d);
    OneMoreString(Absorb, EMPTY, s, 5, d);
    OneMoreString(Absorb, EMPTY, s, 6, d);
    OneMoreBool(Absorb, EMPTY, s, 7, b);
    OneMoreBool(Absorb, EMPTY, s, 8, b);
    OneMoreString(Absorb, EMPTY, s, 9, d);
  }

  /** What was parsed holds every required member exactly if the input carries every one of them. */
  lemma RequiredExactly(s: Bytes)
    requires Parse(s).Some?
    ensures HasRequired(Parse(s).value) <==> Carries(s, 1, 2) && Carries(s, 2, 0) && Carries(s, 3, 0)
  {
    ParsedMembers(EMPTY, s);
  }

  /** A required member is there after parsing exactly if it was there before or is in the input. */
  lemma ParsedMembers(m: BaseStation, s: Bytes)
    requires ParseInto(Absorb, m, s).Some?
    ensures var r := ParseInto(Absorb, m, s).value;
            && (r.hostname.Some? <==> m.hostname.Some? || Carries(s, 1, 2))
            && (r.bsId.Some? <==> m.bsId.Some? || Carries(s, 2, 0))
            && (r.ingroupAddr.Some? <==> m.ingroupAddr.Some? || Carries(s, 3, 0))
  {
    hide Fields;
    ParseSets(Absorb, (x: BaseStation) => x.hostname.Some?, (f: Field) => f.number == 1 && WireType(f.payload) == 2, m, s);
    ParseSets(Absorb, (x: BaseStation) => x.bsId.Some?, (f: Field) => f.number == 2 && WireType(f.payload) == 0, m, s);
    ParseSets(Absorb, (x: BaseStation) => x.ingroupAddr.Some?, (f: Field) => f.number == 3 && WireType(f.payload) == 0, m, s);
  }
}
