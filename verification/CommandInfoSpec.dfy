/**
 The value of an `interaction.TermCommandInfo` or `interaction.BaseCommandInfo` message.
 The two classes differ only in which command numbers exist, so that bound is a parameter.
 */
module CommandInfoSpec {
  import opened Wrappers
  import opened Machine
  import opened WireFormat
  import opened FieldFold
  import opened FieldWriters

  /** The largest valid `TermCommandId` and `BaseCommandId`. */
  const TERM_COMMAND_MAX: nat := 2
  const BASE_COMMAND_MAX: nat := 5

  datatype Command = Command(
    cmdId: Option<int32>,
    cmdArg1: Option<Bytes>,
    cmdArg2: Option<Bytes>,
    cmdArg3: Option<Bytes>,
    unknown: seq<Field>
  )

  const EMPTY := Command(None, None, None, None, [])

  predicate IsValidId(maxId: nat, v: int) {
    0 <= v <= maxId
  }

  /** The fields kept as unknown: unrecognised ones, and command numbers outside the enumeration. */
  predicate IsUnknown(maxId: nat, f: Field) {
    && !(f.payload.Delimited? && 2 <= f.number <= 4)
    && (f.payload.Varint? && f.number == 1 ==>
          !IsValidId(maxId, ToInt32(f.payload.v)) && f.payload.v == SignExtend(ToInt32(f.payload.v)))
  }

  /** One turn of the tag-dispatch loop; an unknown command number is kept as an unknown varint. */
  function Absorb(maxId: nat, m: Command, f: Field): Option<Command> {
    if f.payload.Varint? && f.number == 1 then
      var v := ToInt32(f.payload.v);
      if IsValidId(maxId, v) then Some(m.(cmdId := Some(v)))
      else Some(m.(unknown := m.unknown + [Field(1, Varint(SignExtend(v)))]))
    else if f.payload.Delimited? && f.number == 2 then Some(m.(cmdArg1 := Some(f.payload.data)))
    else if f.payload.Delimited? && f.number == 3 then Some(m.(cmdArg2 := Some(f.payload.data)))
    else if f.payload.Delimited? && f.number == 4 then Some(m.(cmdArg3 := Some(f.payload.data)))
    else Some(m.(unknown := m.unknown + [f]))
  }

  function AbsorbTerm(m: Command, f: Field): Option<Command> {
    Absorb(TERM_COMMAND_MAX, m, f)
  }

  function AbsorbBase(m: Command, f: Field): Option<Command> {
    Absorb(BASE_COMMAND_MAX, m, f)
  }

  /** The dispatch loop of the class with the given bound. */
  function Absorber(base: bool): (Command, Field) -> Option<Command> {
    if base then AbsorbBase else AbsorbTerm
  }

  function MaxId(base: bool): nat {
    if base then BASE_COMMAND_MAX else TERM_COMMAND_MAX
  }

  function Merge(a: Command, b: Command): Command {
    Command(
      Later(a.cmdId, b.cmdId),
      Later(a.cmdArg1, b.cmdArg1),
      Later(a.cmdArg2, b.cmdArg2),
      Later(a.cmdArg3, b.cmdArg3),
      a.unknown + b.unknown)
  }

  /** The fields a serializer emits, in the order it emits them. */
  function ToFields(m: Command): seq<Field> {
    OptInt32(1, m.cmdId) + (OptString(2, m.cmdArg1) + (OptString(3, m.cmdArg2)
    + (OptString(4, m.cmdArg3) + m.unknown)))
  }

  function Parse(base: bool, s: Bytes): Option<Command> {
    ParseInto(Absorber(base), EMPTY, s)
  }

  function Serialize(m: Command): Bytes {
    EncodeFields(ToFields(m))
  }

  predicate HasRequired(m: Command) {
    m.cmdId.Some?
  }

  /** The command number exists, and the unknown fields are ones a parser would have kept as unknown. */
  predicate WellFormed(base: bool, m: Command) {
    && (m.cmdId.Some? ==> IsValidId(MaxId(base), m.cmdId.value))
    && forall f :: f in m.unknown ==> Shaped(f) && IsUnknown(MaxId(base), f)
  }

  lemma AbsorbIsMerge(maxId: nat, a: Command, f: Field)
    ensures Absorb(maxId, a, f) == MergeParsed(Merge, a, Absorb(maxId, EMPTY, f))
  {
    assert forall x: Field :: [] + [x] == [x];
    assert a.unknown + [] == a.unknown;
  }

  lemma MergeIntoEmpty(b: Command)
    ensures Merge(EMPTY, b) == b
  {
    assert [] + b.unknown == b.unknown;
  }

  lemma AbsorbMerges(base: bool)
    ensures MergesFields(Absorber(base), Merge, EMPTY)
  {
    hide Absorb;
    forall a ensures Merge(a, EMPTY) == a {
      assert a.unknown + [] == a.unknown;
    }
    forall a, b, c ensures Merge(Merge(a, b), c) == Merge(a, Merge(b, c)) {
    }
    forall a, f ensures Absorber(base)(a, f) == MergeParsed(Merge, a, Absorber(base)(EMPTY, f)) {
      AbsorbIsMerge(MaxId(base), a, f);
    }
  }

  lemma AbsorbUnknown(maxId: nat, m: Command, f: Field)
    requires IsUnknown(maxId, f)
    ensures Absorb(maxId, m, f) == Some(m.(unknown := m.unknown + [f]))
  {
    if f.payload.Varint? && f.number == 1 {
      assert f == Field(1, Varint(f.payload.v));
    }
  }

  lemma {:induction false} FoldUnknown(base: bool, m: Command, fs: seq<Field>)
    requires forall f :: f in fs ==> IsUnknown(MaxId(base), f)
    ensures Fold(Absorber(base), m, fs) == Some(m.(unknown := m.unknown + fs))
    decreases |fs|
  {
    if fs == [] {
      assert m.unknown + fs == m.unknown;
    } else {
      var f := fs[0];
      var m' := m.(unknown := m.unknown + [f]);
      AbsorbUnknown(MaxId(base), m, f);
      FoldUnknown(base, m', fs[1..]);
      assert m.unknown + [f] + fs[1..] == m.unknown + fs;
    }
  }

  /** Absorbing the emitted fields into the empty message rebuilds the message. */
  lemma FoldToFields(base: bool, m: Command)
    requires WellFormed(base, m)
    ensures Fold(Absorber(base), EMPTY, ToFields(m)) == Some(m)
  {
    hide Fold;
    var absorb := Absorber(base);
    var r4 := OptString(4, m.cmdArg3) + m.unknown;
    var r3 := OptString(3, m.cmdArg2) + r4;
    var r2 := OptString(2, m.cmdArg1) + r3;
    var m1 := EMPTY.(cmdId := m.cmdId);
    var m2 := m1.(cmdArg1 := m.cmdArg1);
    var m3 := m2.(cmdArg2 := m.cmdArg2);
    var m4 := m3.(cmdArg3 := m.cmdArg3);
    if m.cmdId.Some? {
      SignExtendRoundTrip(m.cmdId.value);
    }
    FoldOptional(absorb, EMPTY, OptInt32(1, m.cmdId), m1, r2);
    FoldOptional(absorb, m1, OptString(2, m.cmdArg1), m2, r3);
    FoldOptional(absorb, m2, OptString(3, m.cmdArg2), m3, r4);
    FoldOptional(absorb, m3, OptString(4, m.cmdArg3), m4, m.unknown);
    FoldUnknown(base, m4, m.unknown);
    assert m4.unknown + m.unknown == m.unknown;
  }

  /** Parsing any input onto a well-formed message keeps it so: no command number outside the enumeration gets in. */
  lemma ParsedOntoWellFormed(base: bool, m: Command, s: Bytes)
    requires WellFormed(base, m)
    ensures var r := ParseInto(Absorber(base), m, s); r.Some? ==> WellFormed(base, r.value)
  {
    var absorb := Absorber(base);
    forall a, f | WellFormed(base, a) && Representable(f)
      ensures absorb(a, f).Some? && WellFormed(base, absorb(a, f).value)
    {
      AbsorbKeepsWellFormed(base, a, f);
    }
    ParseKeeps(absorb, x => WellFormed(base, x), m, s);
  }

  lemma AbsorbKeepsWellFormed(base: bool, a: Command, f: Field)
    requires WellFormed(base, a) && Representable(f)
    ensures Absorber(base)(a, f).Some? && WellFormed(base, Absorber(base)(a, f).value)
  {
    if f.payload.Varint? {
      SignExtendRoundTrip(ToInt32(f.payload.v));
    }
  }

  lemma ToFieldsShaped(base: bool, m: Command)
    requires WellFormed(base, m)
    ensures forall f :: f in ToFields(m) ==> Shaped(f)
  {
  }

  /** Printing and parsing gives the message back, for every pattern of present members. */
  lemma RoundTrip(base: bool, m: Command)
    requires WellFormed(base, m) && |Serialize(m)| < TWO31
    ensures Parse(base, Serialize(m)) == Some(m)
  {
    hide Fold, EncodeFields, Absorb, ToFields, WellFormed, Shaped;
    ToFieldsShaped(base, m);
    ParseOfEncoding(Absorber(base), EMPTY, ToFields(m));
    FoldToFields(base, m);
  }

  /** A serialization is its members one after the other, then the unknown fields. */
  lemma SerializePieces(m: Command)
    ensures Serialize(m) ==
            [] + EncodeFields(OptInt32(1, m.cmdId))
            + EncodeFields(OptString(2, m.cmdArg1))
            + EncodeFields(OptString(3, m.cmdArg2))
            + EncodeFields(OptString(4, m.cmdArg3))
            + EncodeFields(m.unknown)
  {
    hide EncodeFields;
    var r3 := OptString(4, m.cmdArg3) + m.unknown;
    var r2 := OptString(3, m.cmdArg2) + r3;
    var r1 := OptString(2, m.cmdArg1) + r2;
    Emit([], OptInt32(1, m.cmdId), r1);
    var o1 := [] + EncodeFields(OptInt32(1, m.cmdId));
    Emit(o1, OptString(2, m.cmdArg1), r2);
    var o2 := o1 + EncodeFields(OptString(2, m.cmdArg1));
    Emit(o2, OptString(3, m.cmdArg2), r3);
    var o3 := o2 + EncodeFields(OptString(3, m.cmdArg2));
    Emit(o3, OptString(4, m.cmdArg3), m.unknown);
  }

  // ----- member by member -----

  /** Of two values of a member the later one counts. */
  lemma MergeMembers(a: Command, b: Command)
    ensures var m := Merge(a, b);
            && m.cmdId == (if b.cmdId.Some? then b.cmdId else a.cmdId)
            && m.cmdArg1 == (if b.cmdArg1.Some? then b.cmdArg1 else a.cmdArg1)
            && m.cmdArg2 == (if b.cmdArg2.Some? then b.cmdArg2 else a.cmdArg2)
            && m.cmdArg3 == (if b.cmdArg3.Some? then b.cmdArg3 else a.cmdArg3)
            && m.unknown == a.unknown + b.unknown
  {
  }

  /** Three commands for terminals, six for base stations. */
  lemma ValidIds(v: int)
    ensures IsValidId(MaxId(false), v) <==> v in {0, 1, 2}
    ensures IsValidId(MaxId(true), v) <==> v in {0, 1, 2, 3, 4, 5}
  {
  }

  /** A field of the right number and wire type overwrites its member; a command number that is none is kept as unknown. */
  lemma AbsorbMembers(base: bool, m: Command, d: Bytes, v: uint64)
    ensures Absorber(base)(m, Field(1, Varint(v))) ==
            var id := ToInt32(v);
            if 0 <= id <= (if base then 5 else 2) then Some(m.(cmdId := Some(id)))
            else Some(m.(unknown := m.unknown + [Field(1, Varint(id % 0x1_0000_0000_0000_0000))]))
    ensures Absorber(base)(m, Field(2, Delimited(d))) == Some(m.(cmdArg1 := Some(d)))
    ensures Absorber(base)(m, Field(3, Delimited(d))) == Some(m.(cmdArg2 := Some(d)))
    ensures Absorber(base)(m, Field(4, Delimited(d))) == Some(m.(cmdArg3 := Some(d)))
  {
    hide ToInt32, SignExtend;
    SignExtendIsModular(ToInt32(v));
  }

  /** Every other field is kept, in the order it came. */
  lemma AbsorbOthers(base: bool, m: Command, f: Field)
    requires f.payload.Delimited? ==> f.number !in {2, 3, 4}
    requires f.payload.Varint? ==> f.number != 1
    ensures Absorber(base)(m, f) == Some(m.(unknown := m.unknown + [f]))
  {
  }

  /** The bytes: each present member behind its tag, in the order of the numbers, then the unknown fields. */
  lemma SerializedBytes(m: Command)
    ensures Serialize(m) ==
            []
            + VarintOnWire(0x08, if m.cmdId.Some? then Some(m.cmdId.value % 0x1_0000_0000_0000_0000) else None)
            + StringOnWire(0x12, m.cmdArg1)
            + StringOnWire(0x1a, m.cmdArg2)
            + StringOnWire(0x22, m.cmdArg3)
            + EncodeFields(m.unknown)
  {
    hide EncodeFields, StringOnWire, VarintOnWire, OptString, OptInt32, Serialize;
    SerializePieces(m);
    Int32Member(1, m.cmdId);
    StringMember(2, m.cmdArg1);
    StringMember(3, m.cmdArg2);
    StringMember(4, m.cmdArg3);
  }

  /** One more member at the end of any input that parses sets that member and no other ("Last One Wins"). */
  lemma LastOneWins(base: bool, s: Bytes, d: Bytes, id: nat)
    requires Parse(base, s).Some? && |d| < 0x8000_0000 && id <= if base then 5 else 2
    ensures var m := Parse(base, s).value;
            && Parse(base, s + VarintOnWire(0x08, Some(id))) == Some(m.(cmdId := Some(id)))
            && Parse(base, s + StringOnWire(0x12, Some(d))) == Some(m.(cmdArg1 := Some(d)))
            && Parse(base, s + StringOnWire(0x1a, Some(d))) == Some(m.(cmdArg2 := Some(d)))
            && Parse(base, s + StringOnWire(0x22, Some(d))) == Some(m.(cmdArg3 := Some(d)))
  {
    hide ParseInto, Absorb, StringOnWire, VarintOnWire;
    AbsorbMembers(base, Parse(base, s).value, d, id);
    OneMoreVarint(Absorber(base), EMPTY, s, 1, id);
    OneMoreString(Absorber(base), EMPTY, s, 2, d);
    OneMoreString(Absorber(base), EMPTY, s, 3, d);
    OneMoreString(Absorber(base), EMPTY, s, 4, d);
  }

  /** Does the input carry a command number that exists? */
  ghost predicate CarriesId(base: bool, s: Bytes) {
    Fields(s).Some? && exists f :: f in Fields(s).value && IsIdField(base, f)
  }

  predicate IsIdField(base: bool, f: Field) {
    f.number == 1 && f.payload.Varint? && 0 <= ToInt32(f.payload.v) <= if base then 5 else 2
  }

  /** What was parsed holds the command number exactly if the input carries one that exists. */
  lemma RequiredExactly(base: bool, s: Bytes)
    requires Parse(base, s).Some?
    ensures HasRequired(Parse(base, s).value) <==> CarriesId(base, s)
  {
    ParsedMembers(base, EMPTY, s);
  }

  lemma ParsedMembers(base: bool, m: Command, s: Bytes)
    requires ParseInto(Absorber(base), m, s).Some?
    ensures ParseInto(Absorber(base), m, s).value.cmdId.Some? <==> m.cmdId.Some? || CarriesId(base, s)
  {
    hide Fields, ToInt32;
    ParseSets(Absorber(base), (x: Command) => x.cmdId.Some?, (f: Field) => IsIdField(base, f), m, s);
  }
}
