/** The value of an `interaction.TerminalInfo` message, and what parsing, printing and merging mean for it. */
module TerminalInfoSpec {
  import opened Wrappers
  import opened Machine
  import opened WireFormat
  import opened FieldFold
  import opened FieldWriters

  datatype Terminal = Terminal(
    hostname: Option<Bytes>,
    macAddr: Option<Bytes>,
    ipAddr: Option<Bytes>,
    sensorChannel: Option<Bytes>,
    sensorHeight: Option<Bytes>,
    sensorOffset: Option<Bytes>,
    romoteIpAddr: Option<Bytes>,
    calibrationStatus: Option<bool>,
    termConfig: Option<Bytes>,
    unknown: seq<Field>
  )

  const EMPTY := Terminal(None, None, None, None, None, None, None, None, None, [])

  /** The fields this class does not recognise, by number and wire type. */
  predicate IsUnknown(f: Field) {
    && !(f.payload.Delimited? && 1 <= f.number <= 9 && f.number != 8)
    && !(f.payload.Varint? && f.number == 8)
  }

  /** One turn of the tag-dispatch loop. */
  function Absorb(m: Terminal, f: Field): Option<Terminal> {
    if IsUnknown(f) then Some(m.(unknown := m.unknown + [f]))
    else if f.number == 8 then Some(m.(calibrationStatus := Some(f.payload.v != 0)))
    else
      var s := Some(f.payload.data);
      if f.number == 1 then Some(m.(hostname := s))
      else if f.number == 2 then Some(m.(macAddr := s))
      else if f.number == 3 then Some(m.(ipAddr := s))
      else if f.number == 4 then Some(m.(sensorChannel := s))
      else if f.number == 5 then Some(m.(sensorHeight := s))
      else if f.number == 6 then Some(m.(sensorOffset := s))
      else if f.number == 7 then Some(m.(romoteIpAddr := s))
      else Some(m.(termConfig := s))
  }

  function Merge(a: Terminal, b: Terminal): Terminal {
    Terminal(
      Later(a.hostname, b.hostname),
      Later(a.macAddr, b.macAddr),
      Later(a.ipAddr, b.ipAddr),
      Later(a.sensorChannel, b.sensorChannel),
      Later(a.sensorHeight, b.sensorHeight),
      Later(a.sensorOffset, b.sensorOffset),
      Later(a.romoteIpAddr, b.romoteIpAddr),
      Later(a.calibrationStatus, b.calibrationStatus),
      Later(a.termConfig, b.termConfig),
      a.unknown + b.unknown)
  }

  /** The fields a serializer emits, in the order it emits them. */
  function ToFields(m: Terminal): seq<Field> {
    OptString(1, m.hostname) + (OptString(2, m.macAddr) + (OptString(3, m.ipAddr)
    + (OptString(4, m.sensorChannel) + LaterFields(m))))
  }

  function LaterFields(m: Terminal): seq<Field> {
    OptString(5, m.sensorHeight) + (OptString(6, m.sensorOffset) + (OptString(7, m.romoteIpAddr)
    + (OptBool(8, m.calibrationStatus) + (OptString(9, m.termConfig) + m.unknown))))
  }

  function Parse(s: Bytes): Option<Terminal> {
    ParseInto(Absorb, EMPTY, s)
  }

  function Serialize(m: Terminal): Bytes {
    EncodeFields(ToFields(m))
  }

  predicate HasRequired(m: Terminal) {
    m.hostname.Some? && m.macAddr.Some? && m.ipAddr.Some?
  }

  /** The unknown fields are ones a parser would have kept as unknown. */
  predicate WellFormed(m: Terminal) {
    forall f :: f in m.unknown ==> Shaped(f) && IsUnknown(f)
  }

  lemma AbsorbIsMerge(a: Terminal, f: Field)
    ensures Absorb(a, f) == MergeParsed(Merge, a, Absorb(EMPTY, f))
  {
    assert [] + [f] == [f];
    assert a.unknown + [] == a.unknown;
  }

  lemma MergeIntoEmpty(b: Terminal)
    ensures Merge(EMPTY, b) == b
  {
    assert [] + b.unknown == b.unknown;
  }

  lemma AbsorbMerges()
    ensures MergesFields(Absorb, Merge, EMPTY)
  {
    hide Absorb;
    forall a ensures Merge(a, EMPTY) == a {
      assert a.unknown + [] == a.unknown;
    }
    forall a, b, c ensures Merge(Merge(a, b), c) == Merge(a, Merge(b, c)) {
    }
    forall a, f ensures Absorb(a, f) == MergeParsed(Merge, a, Absorb(EMPTY, f)) {
      AbsorbIsMerge(a, f);
    }
  }

  lemma {:induction false} FoldUnknown(m: Terminal, fs: seq<Field>)
    requires forall f :: f in fs ==> IsUnknown(f)
    ensures Fold(Absorb, m, fs) == Some(m.(unknown := m.unknown + fs))
    decreases |fs|
  {
    if fs == [] {
      assert m.unknown + fs == m.unknown;
    } else {
      FoldUnknown(Absorb(m, fs[0]).value, fs[1..]);
      assert m.unknown + [fs[0]] + fs[1..] == m.unknown + fs;
    }
  }

  /** The fields from `sensor_height` on rebuild the members after `sensor_channel`. */
  lemma FoldLaterFields(m: Terminal, a: Terminal)
    requires WellFormed(m)
    requires a == Terminal(m.hostname, m.macAddr, m.ipAddr, m.sensorChannel, None, None, None, None, None, [])
    ensures Fold(Absorb, a, LaterFields(m)) == Some(m)
  {
    hide Fold;
    var r9 := OptString(9, m.termConfig) + m.unknown;
    var r8 := OptBool(8, m.calibrationStatus) + r9;
    var r7 := OptString(7, m.romoteIpAddr) + r8;
    var r6 := OptString(6, m.sensorOffset) + r7;
    var m5 := a.(sensorHeight := m.sensorHeight);
    var m6 := m5.(sensorOffset := m.sensorOffset);
    var m7 := m6.(romoteIpAddr := m.romoteIpAddr);
    var m8 := m7.(calibrationStatus := m.calibrationStatus);
    var m9 := m8.(termConfig := m.termConfig);
    FoldOptional(Absorb, a, OptString(5, m.sensorHeight), m5, r6);
    FoldOptional(Absorb, m5, OptString(6, m.sensorOffset), m6, r7);
    FoldOptional(Absorb, m6, OptString(7, m.romoteIpAddr), m7, r8);
    FoldOptional(Absorb, m7, OptBool(8, m.calibrationStatus), m8, r9);
    FoldOptional(Absorb, m8, OptString(9, m.termConfig), m9, m.unknown);
    FoldUnknown(m9, m.unknown);
    assert m9.unknown + m.unknown == m.unknown;
  }

  /** Absorbing the emitted fields into the empty message rebuilds the message. */
  lemma FoldToFields(m: Terminal)
    requires WellFormed(m)
    ensures Fold(Absorb, EMPTY, ToFields(m)) == Some(m)
  {
    hide Fold, LaterFields;
    var r5 := LaterFields(m);
    var r4 := OptString(4, m.sensorChannel) + r5;
    var r3 := OptString(3, m.ipAddr) + r4;
    var r2 := OptString(2, m.macAddr) + r3;
    var m1 := EMPTY.(hostname := m.hostname);
    var m2 := m1.(macAddr := m.macAddr);
    var m3 := m2.(ipAddr := m.ipAddr);
    var m4 := m3.(sensorChannel := m.sensorChannel);
    FoldOptional(Absorb, EMPTY, OptString(1, m.hostname), m1, r2);
    FoldOptional(Absorb, m1, OptString(2, m.macAddr), m2, r3);
    FoldOptional(Absorb, m2, OptString(3, m.ipAddr), m3, r4);
    FoldOptional(Absorb, m3, OptString(4, m.sensorChannel), m4, r5);
    FoldLaterFields(m, m4);
  }

  /** Parsing any input onto a well-formed message keeps it so. */
  lemma ParsedOntoWellFormed(m: Terminal, s: Bytes)
    requires WellFormed(m)
    ensures var r := ParseInto(Absorb, m, s); r.Some? ==> WellFormed(r.value)
  {
    ParseKeeps(Absorb, x => WellFormed(x), m, s);
  }

  lemma ToFieldsShaped(m: Terminal)
    requires WellFormed(m)
    ensures forall f :: f in ToFields(m) ==> Shaped(f)
  {
    assert forall f :: f in LaterFields(m) ==> Shaped(f);
  }

  /** Printing and parsing gives the message back, for every pattern of present members. */
  lemma RoundTrip(m: Terminal)
    requires WellFormed(m) && |Serialize(m)| < TWO31
    ensures Parse(Serialize(m)) == Some(m)
  {
    hide Fold, EncodeFields, Absorb, ToFields, WellFormed, Shaped;
    ToFieldsShaped(m);
    ParseOfEncoding(Absorb, EMPTY, ToFields(m));
    FoldToFields(m);
  }

  /** A serialization is its members one after the other, then the unknown fields. */
  lemma SerializePieces(m: Terminal)
    ensures Serialize(m) ==
            [] + EncodeFields(OptString(1, m.hostname))
            + EncodeFields(OptString(2, m.macAddr))
            + EncodeFields(OptString(3, m.ipAddr))
            + EncodeFields(OptString(4, m.sensorChannel))
            + EncodeFields(OptString(5, m.sensorHeight))
            + EncodeFields(OptString(6, m.sensorOffset))
            + EncodeFields(OptString(7, m.romoteIpAddr))
            + EncodeFields(OptBool(8, m.calibrationStatus))
            + EncodeFields(OptString(9, m.termConfig))
            + EncodeFields(m.unknown)
  {
    hide EncodeFields;
    var r8 := OptString(9, m.termConfig) + m.unknown;
    var r7 := OptBool(8, m.calibrationStatus) + r8;
    var r6 := OptString(7, m.romoteIpAddr) + r7;
    var r5 := OptString(6, m.sensorOffset) + r6;
    var r4 := OptString(5, m.sensorHeight) + r5;
    var r3 := OptString(4, m.sensorChannel) + r4;
    var r2 := OptString(3, m.ipAddr) + r3;
    var r1 := OptString(2, m.macAddr) + r2;
    Emit([], OptString(1, m.hostname), r1);
    var o1 := [] + EncodeFields(OptString(1, m.hostname));
    Emit(o1, OptString(2, m.macAddr), r2);
    var o2 := o1 + EncodeFields(OptString(2, m.macAddr));
    Emit(o2, OptString(3, m.ipAddr), r3);
    var o3 := o2 + EncodeFields(OptString(3, m.ipAddr));
    Emit(o3, OptString(4, m.sensorChannel), r4);
    var o4 := o3 + EncodeFields(OptString(4, m.sensorChannel));
    Emit(o4, OptString(5, m.sensorHeight), r5);
    var o5 := o4 + EncodeFields(OptString(5, m.sensorHeight));
    Emit(o5, OptString(6, m.sensorOffset), r6);
    var o6 := o5 + EncodeFields(OptString(6, m.sensorOffset));
    Emit(o6, OptString(7, m.romoteIpAddr), r7);
    var o7 := o6 + EncodeFields(OptString(7, m.romoteIpAddr));
    Emit(o7, OptBool(8, m.calibrationStatus), r8);
    var o8 := o7 + EncodeFields(OptBool(8, m.calibrationStatus));
    Emit(o8, OptString(9, m.termConfig), m.unknown);
  }

  // ----- member by member -----

  /** Of two values of a member the later one counts. */
  lemma MergeMembers(a: Terminal, b: Terminal)
    ensures var m := Merge(a, b);
            && m.hostname == (if b.hostname.Some? then b.hostname else a.hostname)
            && m.macAddr == (if b.macAddr.Some? then b.macAddr else a.macAddr)
            && m.ipAddr == (if b.ipAddr.Some? then b.ipAddr else a.ipAddr)
            && m.sensorChannel == (if b.sensorChannel.Some? then b.sensorChannel else a.sensorChannel)
            && m.sensorHeight == (if b.sensorHeight.Some? then b.sensorHeight else a.sensorHeight)
            && m.sensorOffset == (if b.sensorOffset.Some? then b.sensorOffset else a.sensorOffset)
            && m.romoteIpAddr == (if b.romoteIpAddr.Some? then b.romoteIpAddr else a.romoteIpAddr)
            && m.calibrationStatus == (if b.calibrationStatus.Some? then b.calibrationStatus else a.calibrationStatus)
            && m.termConfig == (if b.termConfig.Some? then b.termConfig else a.termConfig)
            && m.unknown == a.unknown + b.unknown
  {
  }

  /** A field of the right number and wire type overwrites its member. */
  lemma AbsorbMembers(m: Terminal, d: Bytes, v: uint64)
    ensures Absorb(m, Field(1, Delimited(d))) == Some(m.(hostname := Some(d)))
    ensures Absorb(m, Field(2, Delimited(d))) == Some(m.(macAddr := Some(d)))
    ensures Absorb(m, Field(3, Delimited(d))) == Some(m.(ipAddr := Some(d)))
    ensures Absorb(m, Field(4, Delimited(d))) == Some(m.(sensorChannel := Some(d)))
    ensures Absorb(m, Field(5, Delimited(d))) == Some(m.(sensorHeight := Some(d)))
    ensures Absorb(m, Field(6, Delimited(d))) == Some(m.(sensorOffset := Some(d)))
    ensures Absorb(m, Field(7, Delimited(d))) == Some(m.(romoteIpAddr := Some(d)))
    ensures Absorb(m, Field(8, Varint(v))) == Some(m.(calibrationStatus := Some(v != 0)))
    ensures Absorb(m, Field(9, Delimited(d))) == Some(m.(termConfig := Some(d)))
  {
  }

  /** Every other field is kept, in the order it came. */
  lemma AbsorbOthers(m: Terminal, f: Field)
    requires f.payload.Delimited? ==> f.number !in {1, 2, 3, 4, 5, 6, 7, 9}
    requires f.payload.Varint? ==> f.number !in {8}
    ensures Absorb(m, f) == Some(m.(unknown := m.unknown + [f]))
  {
  }

  /** The bytes: each present member behind its tag, in the order of the numbers, then the unknown fields. */
  lemma SerializedBytes(m: Terminal)
    ensures Serialize(m) ==
            []
            + StringOnWire(0x0a, m.hostname)
            + StringOnWire(0x12, m.macAddr)
            + StringOnWire(0x1a, m.ipAddr)
            + StringOnWire(0x22, m.sensorChannel)
            + StringOnWire(0x2a, m.sensorHeight)
            + StringOnWire(0x32, m.sensorOffset)
            + StringOnWire(0x3a, m.romoteIpAddr)
            + BoolOnWire(0x40, m.calibrationStatus)
            + StringOnWire(0x4a, m.termConfig)
            + EncodeFields(m.unknown)
  {
    hide EncodeFields, StringOnWire, VarintOnWire, BoolOnWire, OptString, OptUInt32, OptBool, Serialize;
    SerializePieces(m);
    StringMember(1, m.hostname);
    StringMember(2, m.macAddr);
    StringMember(3, m.ipAddr);
    StringMember(4, m.sensorChannel);
    StringMember(5, m.sensorHeight);
    StringMember(6, m.sensorOffset);
    StringMember(7, m.romoteIpAddr);
    BoolMember(8, m.calibrationStatus);
    StringMember(9, m.termConfig);
  }

  /** One more member at the end of any input that parses sets that member and no other ("Last One Wins"). */
  lemma LastOneWins(s: Bytes, d: Bytes, b: bool)
    requires Parse(s).Some? && |d| < 0x8000_0000
    ensures var m := Parse(s).value;
            && Parse(s + StringOnWire(0x0a, Some(d))) == Some(m.(hostname := Some(d)))
            && Parse(s + StringOnWire(0x12, Some(d))) == Some(m.(macAddr := Some(d)))
            && Parse(s + StringOnWire(0x1a, Some(d))) == Some(m.(ipAddr := Some(d)))
            && Parse(s + StringOnWire(0x22, Some(d))) == Some(m.(sensorChannel := Some(d)))
            && Parse(s + StringOnWire(0x2a, Some(d))) == Some(m.(sensorHeight := Some(d)))
            && Parse(s + StringOnWire(0x32, Some(d))) == Some(m.(sensorOffset := Some(d)))
            && Parse(s + StringOnWire(0x3a, Some(d))) == Some(m.(romoteIpAddr := Some(d)))
            && Parse(s + BoolOnWire(0x40, Some(b))) == Some(m.(calibrationStatus := Some(b)))
            && Parse(s + StringOnWire(0x4a, Some(d))) == Some(m.(termConfig := Some(d)))
  {
    hide ParseInto, Absorb, StringOnWire, VarintOnWire, BoolOnWire;
    var m := Parse(s).value;
    AbsorbMembers(m, d, if b then 1 else 0);
    OneMoreString(Absorb, EMPTY, s, 1, d);
    OneMoreString(Absorb, EMPTY, s, 2, d);
    OneMoreString(Absorb, EMPTY, s, 3, d);
    OneMoreString(Absorb, EMPTY, s, 4, d);
    OneMoreString(Absorb, EMPTY, s, 5, d);
    OneMoreString(Absorb, EMPTY, s, 6, d);
    OneMoreString(Absorb, EMPTY, s, 7, d);
    OneMoreBool(Absorb, EMPTY, s, 8, b);
    OneMoreString(Absorb, EMPTY, s, 9, d);
  }

  /** What was parsed holds every required member exactly if the input carries every one of them. */
  lemma RequiredExactly(s: Bytes)
    requires Parse(s).Some?
    ensures HasRequired(Parse(s).value) <==> Carries(s, 1, 2) && Carries(s, 2, 2) && Carries(s, 3, 2)
  {
    ParsedMembers(EMPTY, s);
  }

  /** A required member is there after parsing exactly if it was there before or is in the input. */
  lemma ParsedMembers(m: Terminal, s: Bytes)
    requires ParseInto(Absorb, m, s).Some?
    ensures var r := ParseInto(Absorb, m, s).value;
            && (r.hostname.Some? <==> m.hostname.Some? || Carries(s, 1, 2))
            && (r.macAddr.Some? <==> m.macAddr.Some? || Carries(s, 2, 2))
            && (r.ipAddr.Some? <==> m.ipAddr.Some? || Carries(s, 3, 2))
  {
    hide Fields;
    ParseSets(Absorb, (x: Terminal) => x.hostname.Some?, (f: Field) => f.number == 1 && WireType(f.payload) == 2, m, s);
    ParseSets(Absorb, (x: Terminal) => x.macAddr.Some?, (f: Field) => f.number == 2 && WireType(f.payload) == 2, m, s);
    ParseSets(Absorb, (x: Terminal) => x.ipAddr.Some?, (f: Field) => f.number == 3 && WireType(f.payload) == 2, m, s);
  }
}
