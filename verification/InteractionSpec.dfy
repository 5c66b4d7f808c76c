/**
 The value of an `interaction` message: scalars, four optional submessages and two lists
 of submessages, with the theorems about parsing, printing and merging it.
 */
module InteractionSpec {
  import opened Wrappers
  import opened Machine
  import opened WireFormat
  import opened FieldFold
  import opened FieldWriters

  import T = TerminalInfoSpec
  import B = BaseStationInfoSpec
  import C = CommandInfoSpec

  datatype Interaction = Interaction(
    msgId: Option<int32>,
    terminalInfo: Option<T.Terminal>,
    terminalCmdInfo: Option<C.Command>,
    terminalCmdResult: Option<bool>,
    baseStationInfo: Option<B.BaseStation>,
    baseCmdInfo: Option<C.Command>,
    baseCmdResult: Option<bool>,
    configFile: Option<Bytes>,
    terminalInfoList: seq<T.Terminal>,
    baseStationInfoList: seq<B.BaseStation>,
    unknown: seq<Field>
  )

  const EMPTY := Interaction(None, None, None, None, None, None, None, None, [], [], [])

  /** The fields this class does not recognise, by number and wire type. */
  predicate IsUnknown(f: Field) {
    && !(f.payload.Delimited? && (f.number == 2 || f.number == 3 || f.number == 5 || f.number == 6 || 9 <= f.number <= 11))
    && !(f.payload.Varint? && (f.number == 1 || f.number == 4 || f.number == 7))
  }

  /** One turn of the tag-dispatch loop; it fails when a submessage does not parse. */
  function Absorb(m: Interaction, f: Field): Option<Interaction> {
    if IsUnknown(f) then Some(m.(unknown := m.unknown + [f]))
    else if f.number == 1 then Some(m.(msgId := Some(ToInt32(f.payload.v))))
    else if f.number == 4 then Some(m.(terminalCmdResult := Some(f.payload.v != 0)))
    else if f.number == 7 then Some(m.(baseCmdResult := Some(f.payload.v != 0)))
    else if f.number == 9 then Some(m.(configFile := Some(f.payload.data)))
    else AbsorbMessage(m, f.number, f.payload.data)
  }

  /** A submessage is parsed onto the one already there; a list element is parsed afresh. */
  function AbsorbMessage(m: Interaction, number: nat, s: Bytes): Option<Interaction> {
    if number == 2 then
      match ParseInto(T.Absorb, m.terminalInfo.GetOr(T.EMPTY), s)
      case None => None
      case Some(t) => Some(m.(terminalInfo := Some(t)))
    else if number == 3 then
      match ParseInto(C.Absorber(false), m.terminalCmdInfo.GetOr(C.EMPTY), s)
      case None => None
      case Some(c) => Some(m.(terminalCmdInfo := Some(c)))
    else if number == 5 then
      match ParseInto(B.Absorb, m.baseStationInfo.GetOr(B.EMPTY), s)
      case None => None
      case Some(b) => Some(m.(baseStationInfo := Some(b)))
    else if number == 6 then
      match ParseInto(C.Absorber(true), m.baseCmdInfo.GetOr(C.EMPTY), s)
      case None => None
      case Some(c) => Some(m.(baseCmdInfo := Some(c)))
    else if number == 10 then
      match T.Parse(s)
      case None => None
      case Some(t) => Some(m.(terminalInfoList := m.terminalInfoList + [t]))
    else
      match B.Parse(s)
      case None => None
      case Some(b) => Some(m.(baseStationInfoList := m.baseStationInfoList + [b]))
  }

  /** Merging an optional submessage: onto the one there, or onto a new empty one. */
  function MergeMessage<M>(merge: (M, M) -> M, empty: M, a: Option<M>, b: Option<M>): Option<M> {
    match b
    case None => a
    case Some(m) => Some(merge(a.GetOr(empty), m))
  }

  function Merge(a: Interaction, b: Interaction): Interaction {
    Interaction(
      Later(a.msgId, b.msgId),
      MergeMessage(T.Merge, T.EMPTY, a.terminalInfo, b.terminalInfo),
      MergeMessage(C.Merge, C.EMPTY, a.terminalCmdInfo, b.terminalCmdInfo),
      Later(a.terminalCmdResult, b.terminalCmdResult),
      MergeMessage(B.Merge, B.EMPTY, a.baseStationInfo, b.baseStationInfo),
      MergeMessage(C.Merge, C.EMPTY, a.baseCmdInfo, b.baseCmdInfo),
      Later(a.baseCmdResult, b.baseCmdResult),
      Later(a.configFile, b.configFile),
      a.terminalInfoList + b.terminalInfoList,
      a.baseStationInfoList + b.baseStationInfoList,
      a.unknown + b.unknown)
  }

  function OptTerminal(o: Option<T.Terminal>): seq<Field> {
    match o
    case None => []
    case Some(t) => [Field(2, Delimited(T.Serialize(t)))]
  }

  function OptStation(o: Option<B.BaseStation>): seq<Field> {
    match o
    case None => []
    case Some(b) => [Field(5, Delimited(B.Serialize(b)))]
  }

  function OptCommand(number: nat, o: Option<C.Command>): seq<Field> {
    match o
    case None => []
    case Some(c) => [Field(number, Delimited(C.Serialize(c)))]
  }

  function Terminals(l: seq<T.Terminal>): seq<Field> {
    if l == [] then [] else [Field(10, Delimited(T.Serialize(l[0])))] + Terminals(l[1..])
  }

  function Stations(l: seq<B.BaseStation>): seq<Field> {
    if l == [] then [] else [Field(11, Delimited(B.Serialize(l[0])))] + Stations(l[1..])
  }

  /** The fields a serializer emits, in the order it emits them. */
  function ToFields(m: Interaction): seq<Field> {
    OptInt32(1, m.msgId) + (OptTerminal(m.terminalInfo) + (OptCommand(3, m.terminalCmdInfo)
    + (OptBool(4, m.terminalCmdResult) + LaterFields(m))))
  }

  function LaterFields(m: Interaction): seq<Field> {
    OptStation(m.baseStationInfo) + (OptCommand(6, m.baseCmdInfo) + (OptBool(7, m.baseCmdResult)
    + (OptString(9, m.configFile) + ListFields(m))))
  }

  function ListFields(m: Interaction): seq<Field> {
    Terminals(m.terminalInfoList) + (Stations(m.baseStationInfoList) + m.unknown)
  }

  function Parse(s: Bytes): Option<Interaction> {
    ParseInto(Absorb, EMPTY, s)
  }

  function Serialize(m: Interaction): Bytes {
    EncodeFields(ToFields(m))
  }

  predicate HasRequired(m: Interaction) {
    && m.msgId.Some?
    && (forall t :: t in m.terminalInfoList ==> T.HasRequired(t))
    && (forall b :: b in m.baseStationInfoList ==> B.HasRequired(b))
    && (m.terminalInfo.Some? ==> T.HasRequired(m.terminalInfo.value))
    && (m.terminalCmdInfo.Some? ==> C.HasRequired(m.terminalCmdInfo.value))
    && (m.baseStationInfo.Some? ==> B.HasRequired(m.baseStationInfo.value))
    && (m.baseCmdInfo.Some? ==> C.HasRequired(m.baseCmdInfo.value))
  }

  /** Submessages are well formed and the unknown fields are ones a parser would have kept. */
  predicate WellFormed(m: Interaction) {
    && (m.terminalInfo.Some? ==> T.WellFormed(m.terminalInfo.value))
    && (m.terminalCmdInfo.Some? ==> C.WellFormed(false, m.terminalCmdInfo.value))
    && (m.baseStationInfo.Some? ==> B.WellFormed(m.baseStationInfo.value))
    && (m.baseCmdInfo.Some? ==> C.WellFormed(true, m.baseCmdInfo.value))
    && (forall t :: t in m.terminalInfoList ==> T.WellFormed(t))
    && (forall b :: b in m.baseStationInfoList ==> B.WellFormed(b))
    && (forall f :: f in m.unknown ==> Shaped(f) && IsUnknown(f))
  }

  // ----- merging -----

  lemma MergeMessageAssociates<M(!new)>(merge: (M, M) -> M, empty: M, a: Option<M>, b: Option<M>, c: Option<M>)
    requires forall x, y, z {:trigger merge(merge(x, y), z)} :: merge(merge(x, y), z) == merge(x, merge(y, z))
    requires forall x {:trigger merge(x, empty)} :: merge(x, empty) == x
    ensures MergeMessage(merge, empty, MergeMessage(merge, empty, a, b), c) ==
            MergeMessage(merge, empty, a, MergeMessage(merge, empty, b, c))
  {
    if c.Some? {
      var x, y := a.GetOr(empty), b.GetOr(empty);
      assert merge(x, empty) == x;
      assert merge(merge(x, y), c.value) == merge(x, merge(y, c.value));
    }
  }

  lemma MergeAssociates(a: Interaction, b: Interaction, c: Interaction)
    ensures Merge(Merge(a, b), c) == Merge(a, Merge(b, c))
  {
    hide MergeMessage;
    T.AbsorbMerges();
    B.AbsorbMerges();
    C.AbsorbMerges(false);
    MergeMessageAssociates(T.Merge, T.EMPTY, a.terminalInfo, b.terminalInfo, c.terminalInfo);
    MergeMessageAssociates(C.Merge, C.EMPTY, a.terminalCmdInfo, b.terminalCmdInfo, c.terminalCmdInfo);
    MergeMessageAssociates(B.Merge, B.EMPTY, a.baseStationInfo, b.baseStationInfo, c.baseStationInfo);
    MergeMessageAssociates(C.Merge, C.EMPTY, a.baseCmdInfo, b.baseCmdInfo, c.baseCmdInfo);
  }

  lemma MergeIntoEmpty(b: Interaction)
    ensures Merge(EMPTY, b) == b
  {
    hide T.Merge, B.Merge, C.Merge;
    if b.terminalInfo.Some? { T.MergeIntoEmpty(b.terminalInfo.value); }
    if b.terminalCmdInfo.Some? { C.MergeIntoEmpty(b.terminalCmdInfo.value); }
    if b.baseStationInfo.Some? { B.MergeIntoEmpty(b.baseStationInfo.value); }
    if b.baseCmdInfo.Some? { C.MergeIntoEmpty(b.baseCmdInfo.value); }
    assert [] + b.unknown == b.unknown;
    assert [] + b.terminalInfoList == b.terminalInfoList;
    assert [] + b.baseStationInfoList == b.baseStationInfoList;
  }

  lemma AbsorbMessageIsMerge(a: Interaction, number: nat, s: Bytes)
    ensures AbsorbMessage(a, number, s) == MergeParsed(Merge, a, AbsorbMessage(EMPTY, number, s))
  {
    hide ParseInto, T.Merge, B.Merge, C.Merge;
    assert a.unknown + [] == a.unknown;
    assert a.terminalInfoList + [] == a.terminalInfoList;
    assert a.baseStationInfoList + [] == a.baseStationInfoList;
    if number == 2 {
      T.AbsorbMerges();
      ParseIsMerge(T.Absorb, T.Merge, T.EMPTY, a.terminalInfo.GetOr(T.EMPTY), s);
    } else if number == 3 {
      C.AbsorbMerges(false);
      ParseIsMerge(C.Absorber(false), C.Merge, C.EMPTY, a.terminalCmdInfo.GetOr(C.EMPTY), s);
    } else if number == 5 {
      B.AbsorbMerges();
      ParseIsMerge(B.Absorb, B.Merge, B.EMPTY, a.baseStationInfo.GetOr(B.EMPTY), s);
    } else if number == 6 {
      C.AbsorbMerges(true);
      ParseIsMerge(C.Absorber(true), C.Merge, C.EMPTY, a.baseCmdInfo.GetOr(C.EMPTY), s);
    } else {
      assert forall t: T.Terminal :: [] + [t] == [t];
      assert forall b: B.BaseStation :: [] + [b] == [b];
    }
  }

  lemma AbsorbIsMerge(a: Interaction, f: Field)
    ensures Absorb(a, f) == MergeParsed(Merge, a, Absorb(EMPTY, f))
  {
    hide AbsorbMessage;
    if !IsUnknown(f) && f.payload.Delimited? && f.number != 9 {
      AbsorbMessageIsMerge(a, f.number, f.payload.data);
    } else {
      assert a.unknown + [] == a.unknown && [] + [f] == [f];
      assert a.terminalInfoList + [] == a.terminalInfoList;
      assert a.baseStationInfoList + [] == a.baseStationInfoList;
    }
  }

  lemma AbsorbMerges()
    ensures MergesFields(Absorb, Merge, EMPTY)
  {
    hide Absorb;
    forall a ensures Merge(a, EMPTY) == a {
      assert a.unknown + [] == a.unknown;
      assert a.terminalInfoList + [] == a.terminalInfoList;
      assert a.baseStationInfoList + [] == a.baseStationInfoList;
    }
    forall a, b, c ensures Merge(Merge(a, b), c) == Merge(a, Merge(b, c)) {
      MergeAssociates(a, b, c);
    }
    forall a, f ensures Absorb(a, f) == MergeParsed(Merge, a, Absorb(EMPTY, f)) {
      AbsorbIsMerge(a, f);
    }
  }

  /**
   Parsing a concatenation is merging: scalars take the last value, submessages merge
   member by member, lists and unknown fields are appended.
   */
  lemma ParseOfConcatenationIsMerge(a: Bytes, b: Bytes)
    requires Parse(a).Some?
    ensures Parse(a + b) == MergeParsed(Merge, Parse(a).value, Parse(b))
  {
    hide Fold, Merge, Absorb;
    ParseConcatenation(Absorb, EMPTY, a, b);
    AbsorbMerges();
    ParseIsMerge(Absorb, Merge, EMPTY, Parse(a).value, b);
  }

  // ----- printing and parsing -----

  lemma {:induction false} FoldUnknown(m: Interaction, fs: seq<Field>)
    requires forall f :: f in fs ==> IsUnknown(f)
    ensures Fold(Absorb, m, fs) == Some(m.(unknown := m.unknown + fs))
    decreases |fs|
  {
    hide AbsorbMessage;
    if fs == [] {
      assert m.unknown + fs == m.unknown;
    } else {
      FoldUnknown(Absorb(m, fs[0]).value, fs[1..]);
      assert m.unknown + [fs[0]] + fs[1..] == m.unknown + fs;
    }
  }

  lemma AbsorbTerminal(m: Interaction, x: T.Terminal)
    requires T.WellFormed(x) && |T.Serialize(x)| < TWO31
    ensures Absorb(m, Field(10, Delimited(T.Serialize(x)))) == Some(m.(terminalInfoList := m.terminalInfoList + [x]))
  {
    hide ParseInto, T.Parse, T.Serialize, T.WellFormed;
    T.RoundTrip(x);
  }

  lemma {:induction false} FoldTerminals(m: Interaction, l: seq<T.Terminal>)
    requires forall t :: t in l ==> T.WellFormed(t) && |T.Serialize(t)| < TWO31
    ensures Fold(Absorb, m, Terminals(l)) == Some(m.(terminalInfoList := m.terminalInfoList + l))
    decreases |l|
  {
    hide Absorb, EncodeFields, ParseInto, T.Serialize, T.WellFormed;
    if l == [] {
      assert m.terminalInfoList + l == m.terminalInfoList;
    } else {
      var m' := m.(terminalInfoList := m.terminalInfoList + [l[0]]);
      AbsorbTerminal(m, l[0]);
      FoldOptional(Absorb, m, [Field(10, Delimited(T.Serialize(l[0])))], m', Terminals(l[1..]));
      FoldTerminals(m', l[1..]);
      assert m.terminalInfoList + [l[0]] + l[1..] == m.terminalInfoList + l;
    }
  }

  lemma AbsorbStation(m: Interaction, x: B.BaseStation)
    requires B.WellFormed(x) && |B.Serialize(x)| < TWO31
    ensures Absorb(m, Field(11, Delimited(B.Serialize(x)))) == Some(m.(baseStationInfoList := m.baseStationInfoList + [x]))
  {
    hide ParseInto, B.Parse, B.Serialize, B.WellFormed;
    B.RoundTrip(x);
  }

  lemma {:induction false} FoldStations(m: Interaction, l: seq<B.BaseStation>)
    requires forall b :: b in l ==> B.WellFormed(b) && |B.Serialize(b)| < TWO31
    ensures Fold(Absorb, m, Stations(l)) == Some(m.(baseStationInfoList := m.baseStationInfoList + l))
    decreases |l|
  {
    hide Absorb, EncodeFields, ParseInto, B.Serialize, B.WellFormed;
    if l == [] {
      assert m.baseStationInfoList + l == m.baseStationInfoList;
    } else {
      var m' := m.(baseStationInfoList := m.baseStationInfoList + [l[0]]);
      AbsorbStation(m, l[0]);
      FoldOptional(Absorb, m, [Field(11, Delimited(B.Serialize(l[0])))], m', Stations(l[1..]));
      FoldStations(m', l[1..]);
      assert m.baseStationInfoList + [l[0]] + l[1..] == m.baseStationInfoList + l;
    }
  }

  /** Every submessage fits a length-delimited record. */
  predicate Fits(m: Interaction) {
    && (m.terminalInfo.Some? ==> |T.Serialize(m.terminalInfo.value)| < TWO31)
    && (m.terminalCmdInfo.Some? ==> |C.Serialize(m.terminalCmdInfo.value)| < TWO31)
    && (m.baseStationInfo.Some? ==> |B.Serialize(m.baseStationInfo.value)| < TWO31)
    && (m.baseCmdInfo.Some? ==> |C.Serialize(m.baseCmdInfo.value)| < TWO31)
    && (forall t :: t in m.terminalInfoList ==> |T.Serialize(t)| < TWO31)
    && (forall b :: b in m.baseStationInfoList ==> |B.Serialize(b)| < TWO31)
  }

  lemma FoldListFields(m: Interaction, a: Interaction)
    requires WellFormed(m) && Fits(m)
    requires a == m.(terminalInfoList := [], baseStationInfoList := [], unknown := [])
    ensures Fold(Absorb, a, ListFields(m)) == Some(m)
  {
    hide Fold, Absorb, Terminals, Stations;
    var a1 := a.(terminalInfoList := [] + m.terminalInfoList);
    var a2 := a1.(baseStationInfoList := [] + m.baseStationInfoList);
    FoldTerminals(a, m.terminalInfoList);
    FoldConcatenation(Absorb, a, Terminals(m.terminalInfoList), Stations(m.baseStationInfoList) + m.unknown);
    FoldStations(a1, m.baseStationInfoList);
    FoldConcatenation(Absorb, a1, Stations(m.baseStationInfoList), m.unknown);
    FoldUnknown(a2, m.unknown);
    assert a2.(unknown := [] + m.unknown) == m;
  }

  lemma FoldTerminal(m: Interaction, o: Option<T.Terminal>, rest: seq<Field>)
    requires m.terminalInfo == None
    requires o.Some? ==> T.WellFormed(o.value) && |T.Serialize(o.value)| < TWO31
    ensures Fold(Absorb, m, OptTerminal(o) + rest) == Fold(Absorb, m.(terminalInfo := o), rest)
  {
    hide Fold, ParseInto, T.Serialize, T.WellFormed;
    if o.Some? {
      assert T.Parse(T.Serialize(o.value)) == o by { T.RoundTrip(o.value); }
    }
    FoldOptional(Absorb, m, OptTerminal(o), m.(terminalInfo := o), rest);
  }

  lemma FoldStation(m: Interaction, o: Option<B.BaseStation>, rest: seq<Field>)
    requires m.baseStationInfo == None
    requires o.Some? ==> B.WellFormed(o.value) && |B.Serialize(o.value)| < TWO31
    ensures Fold(Absorb, m, OptStation(o) + rest) == Fold(Absorb, m.(baseStationInfo := o), rest)
  {
    hide Fold, ParseInto, B.Serialize, B.WellFormed;
    if o.Some? {
      assert B.Parse(B.Serialize(o.value)) == o by { B.RoundTrip(o.value); }
    }
    FoldOptional(Absorb, m, OptStation(o), m.(baseStationInfo := o), rest);
  }

  lemma FoldTermCommand(m: Interaction, o: Option<C.Command>, rest: seq<Field>)
    requires m.terminalCmdInfo == None
    requires o.Some? ==> C.WellFormed(false, o.value) && |C.Serialize(o.value)| < TWO31
    ensures Fold(Absorb, m, OptCommand(3, o) + rest) == Fold(Absorb, m.(terminalCmdInfo := o), rest)
  {
    hide Fold, ParseInto, C.Serialize, C.WellFormed;
    if o.Some? {
      assert C.Parse(false, C.Serialize(o.value)) == o by { C.RoundTrip(false, o.value); }
    }
    FoldOptional(Absorb, m, OptCommand(3, o), m.(terminalCmdInfo := o), rest);
  }

  lemma FoldBaseCommand(m: Interaction, o: Option<C.Command>, rest: seq<Field>)
    requires m.baseCmdInfo == None
    requires o.Some? ==> C.WellFormed(true, o.value) && |C.Serialize(o.value)| < TWO31
    ensures Fold(Absorb, m, OptCommand(6, o) + rest) == Fold(Absorb, m.(baseCmdInfo := o), rest)
  {
    hide Fold, ParseInto, C.Serialize, C.WellFormed;
    if o.Some? {
      assert C.Parse(true, C.Serialize(o.value)) == o by { C.RoundTrip(true, o.value); }
    }
    FoldOptional(Absorb, m, OptCommand(6, o), m.(baseCmdInfo := o), rest);
  }

  lemma FoldLaterFields(m: Interaction, a: Interaction)
    requires WellFormed(m) && Fits(m)
    requires a == Interaction(m.msgId, m.terminalInfo, m.terminalCmdInfo, m.terminalCmdResult,
                              None, None, None, None, [], [], [])
    ensures Fold(Absorb, a, LaterFields(m)) == Some(m)
  {
    hide Fold, ListFields, AbsorbMessage, OptStation, OptCommand, B.Serialize, C.Serialize, B.WellFormed,
      C.WellFormed;
    var r9 := OptString(9, m.configFile) + ListFields(m);
    var r7 := OptBool(7, m.baseCmdResult) + r9;
    var r6 := OptCommand(6, m.baseCmdInfo) + r7;
    var m5 := a.(baseStationInfo := m.baseStationInfo);
    var m6 := m5.(baseCmdInfo := m.baseCmdInfo);
    var m7 := m6.(baseCmdResult := m.baseCmdResult);
    var m9 := m7.(configFile := m.configFile);
    FoldStation(a, m.baseStationInfo, r6);
    FoldBaseCommand(m5, m.baseCmdInfo, r7);
    FoldOptional(Absorb, m6, OptBool(7, m.baseCmdResult), m7, r9);
    FoldOptional(Absorb, m7, OptString(9, m.configFile), m9, ListFields(m));
    FoldListFields(m, m9);
  }

  lemma FoldToFields(m: Interaction)
    requires WellFormed(m) && Fits(m)
    ensures Fold(Absorb, EMPTY, ToFields(m)) == Some(m)
  {
    hide Fold, LaterFields, AbsorbMessage, OptTerminal, OptCommand, T.Serialize, C.Serialize, T.WellFormed,
      C.WellFormed;
    var r5 := LaterFields(m);
    var r4 := OptBool(4, m.terminalCmdResult) + r5;
    var r3 := OptCommand(3, m.terminalCmdInfo) + r4;
    var r2 := OptTerminal(m.terminalInfo) + r3;
    var m1 := EMPTY.(msgId := m.msgId);
    var m2 := m1.(terminalInfo := m.terminalInfo);
    var m3 := m2.(terminalCmdInfo := m.terminalCmdInfo);
    var m4 := m3.(terminalCmdResult := m.terminalCmdResult);
    if m.msgId.Some? {
      SignExtendRoundTrip(m.msgId.value);
    }
    FoldOptional(Absorb, EMPTY, OptInt32(1, m.msgId), m1, r2);
    FoldTerminal(m1, m.terminalInfo, r3);
    FoldTermCommand(m2, m.terminalCmdInfo, r4);
    FoldOptional(Absorb, m3, OptBool(4, m.terminalCmdResult), m4, r5);
    FoldLaterFields(m, m4);
  }

  lemma {:induction false} TerminalsListed(l: seq<T.Terminal>)
    ensures forall f :: f in Terminals(l) ==> Shaped(f)
    ensures forall t :: t in l ==> Field(10, Delimited(T.Serialize(t))) in Terminals(l)
  {
    hide T.Serialize;
    if l != [] {
      TerminalsListed(l[1..]);
    }
  }

  lemma {:induction false} StationsListed(l: seq<B.BaseStation>)
    ensures forall f :: f in Stations(l) ==> Shaped(f)
    ensures forall b :: b in l ==> Field(11, Delimited(B.Serialize(b))) in Stations(l)
  {
    hide B.Serialize;
    if l != [] {
      StationsListed(l[1..]);
    }
  }

  lemma ToFieldsShaped(m: Interaction)
    requires WellFormed(m)
    ensures forall f :: f in ToFields(m) ==> Shaped(f)
  {
    hide Terminals, Stations, T.Serialize, B.Serialize, C.Serialize;
    TerminalsListed(m.terminalInfoList);
    StationsListed(m.baseStationInfoList);
    assert forall f :: f in ListFields(m) ==> Shaped(f);
    assert forall f :: f in LaterFields(m) ==> Shaped(f);
  }

  /** A message under 2 GB holds only submessages under 2 GB. */
  lemma SmallMessageFits(m: Interaction)
    requires WellFormed(m) && |Serialize(m)| < TWO31
    ensures Fits(m)
  {
    hide Terminals, Stations, T.Serialize, B.Serialize, C.Serialize, EncodeFields, Shaped, WellFormed;
    var fs := ToFields(m);
    ToFieldsShaped(m);
    SmallMessageIsRepresentable(fs);
    TerminalsListed(m.terminalInfoList);
    StationsListed(m.baseStationInfoList);
    assert forall f :: f in ListFields(m) ==> f in LaterFields(m);
    assert forall f :: f in LaterFields(m) ==> f in fs;
    assert forall f :: f in Terminals(m.terminalInfoList) || f in Stations(m.baseStationInfoList) ==> f in ListFields(m);
    forall t | t in m.terminalInfoList ensures |T.Serialize(t)| < TWO31 {
      assert Representable(Field(10, Delimited(T.Serialize(t))));
    }
    forall b | b in m.baseStationInfoList ensures |B.Serialize(b)| < TWO31 {
      assert Representable(Field(11, Delimited(B.Serialize(b))));
    }
    assert m.terminalInfo.Some? ==> OptTerminal(m.terminalInfo)[0] in fs;
    assert m.terminalCmdInfo.Some? ==> OptCommand(3, m.terminalCmdInfo)[0] in fs;
    assert m.baseStationInfo.Some? ==> OptStation(m.baseStationInfo)[0] in LaterFields(m);
    assert m.baseCmdInfo.Some? ==> OptCommand(6, m.baseCmdInfo)[0] in LaterFields(m);
  }

  /**
   Printing and parsing gives the message back: every pattern of present members, every
   string, negative numbers, nested messages, lists of any length, and unknown fields.
   */
  lemma RoundTrip(m: Interaction)
    requires WellFormed(m) && |Serialize(m)| < TWO31
    ensures Parse(Serialize(m)) == Some(m)
  {
    hide Fold, ParseInto, EncodeFields, Absorb, ToFields, WellFormed, Fits;
    ToFieldsShaped(m);
    SmallMessageFits(m);
    ParseOfEncoding(Absorb, EMPTY, ToFields(m));
    FoldToFields(m);
  }

  lemma AbsorbMessageKeepsWellFormed(m: Interaction, number: nat, s: Bytes)
    requires WellFormed(m)
    ensures AbsorbMessage(m, number, s).Some? ==> WellFormed(AbsorbMessage(m, number, s).value)
  {
    hide ParseInto, T.WellFormed, B.WellFormed, C.WellFormed;
    if number == 2 {
      T.ParsedOntoWellFormed(m.terminalInfo.GetOr(T.EMPTY), s);
    } else if number == 3 {
      C.ParsedOntoWellFormed(false, m.terminalCmdInfo.GetOr(C.EMPTY), s);
    } else if number == 5 {
      B.ParsedOntoWellFormed(m.baseStationInfo.GetOr(B.EMPTY), s);
    } else if number == 6 {
      C.ParsedOntoWellFormed(true, m.baseCmdInfo.GetOr(C.EMPTY), s);
    } else if number == 10 {
      T.ParsedOntoWellFormed(T.EMPTY, s);
    } else {
      B.ParsedOntoWellFormed(B.EMPTY, s);
    }
  }

  lemma AbsorbKeepsWellFormed(m: Interaction, f: Field)
    requires WellFormed(m) && Representable(f)
    ensures Absorb(m, f).Some? ==> WellFormed(Absorb(m, f).value)
  {
    hide AbsorbMessage, T.WellFormed, B.WellFormed, C.WellFormed;
    if !IsUnknown(f) && f.payload.Delimited? && f.number != 9 {
      AbsorbMessageKeepsWellFormed(m, f.number, f.payload.data);
    }
  }

  /** What is parsed from any input is well formed. */
  lemma ParsedIsWellFormed(s: Bytes)
    ensures Parse(s).Some? ==> WellFormed(Parse(s).value)
  {
    hide Absorb;
    forall m, f | WellFormed(m) && Representable(f) && Absorb(m, f).Some?
      ensures WellFormed(Absorb(m, f).value)
    {
      AbsorbKeepsWellFormed(m, f);
    }
    ParseKeeps(Absorb, m => WellFormed(m), EMPTY, s);
  }

  /**
   Exactly the well-formed messages survive: a command number outside its enumeration, or an
   "unknown" field the class does know, comes back somewhere else.
   */
  lemma RoundTripExactly(m: Interaction)
    requires |Serialize(m)| < TWO31
    ensures Parse(Serialize(m)) == Some(m) <==> WellFormed(m)
  {
    hide Parse, Serialize, WellFormed;
    ParsedIsWellFormed(Serialize(m));
    if WellFormed(m) {
      RoundTrip(m);
    }
  }

  /** Re-printing whatever was parsed, canonical or not, parses to the same message. */
  lemma ReprintedParsesTheSame(s: Bytes)
    requires Parse(s).Some? && |Serialize(Parse(s).value)| < TWO31
    ensures Parse(Serialize(Parse(s).value)) == Parse(s)
  {
    hide Parse, Serialize, WellFormed;
    ParsedIsWellFormed(s);
    RoundTrip(Parse(s).value);
  }

  /** Sending two messages back to back sends their merge. */
  lemma PrintedTwiceIsMerged(a: Interaction, b: Interaction)
    requires WellFormed(a) && |Serialize(a)| < TWO31
    requires WellFormed(b) && |Serialize(b)| < TWO31
    ensures Parse(Serialize(a) + Serialize(b)) == Some(Merge(a, b))
  {
    hide Parse, Serialize, WellFormed, Merge;
    RoundTrip(a);
    RoundTrip(b);
    ParseOfConcatenationIsMerge(Serialize(a), Serialize(b));
  }

  /** Different messages, absent and empty members told apart, have different encodings. */
  lemma SerializeIsInjective(a: Interaction, b: Interaction)
    requires WellFormed(a) && WellFormed(b) && |Serialize(a)| < TWO31
    ensures Serialize(a) == Serialize(b) <==> a == b
  {
    hide Parse, Serialize, WellFormed;
    RoundTrip(a);
    if Serialize(a) == Serialize(b) {
      RoundTrip(b);
    }
  }

  /** A serialization is its members one after the other, then the unknown fields. */
  lemma SerializePieces(m: Interaction)
    ensures Serialize(m) ==
            [] + EncodeFields(OptInt32(1, m.msgId))
            + EncodeFields(OptTerminal(m.terminalInfo))
            + EncodeFields(OptCommand(3, m.terminalCmdInfo))
            + EncodeFields(OptBool(4, m.terminalCmdResult))
            + EncodeFields(OptStation(m.baseStationInfo))
            + EncodeFields(OptCommand(6, m.baseCmdInfo))
            + EncodeFields(OptBool(7, m.baseCmdResult))
            + EncodeFields(OptString(9, m.configFile))
            + EncodeFields(Terminals(m.terminalInfoList))
            + EncodeFields(Stations(m.baseStationInfoList))
            + EncodeFields(m.unknown)
  {
    hide EncodeFields, OptInt32, OptBool, OptString, OptTerminal, OptStation, OptCommand, Terminals, Stations;
    var r10 := Stations(m.baseStationInfoList) + m.unknown;
    var r9 := Terminals(m.terminalInfoList) + r10;
    var r8 := OptString(9, m.configFile) + r9;
    var r7 := OptBool(7, m.baseCmdResult) + r8;
    var r6 := OptCommand(6, m.baseCmdInfo) + r7;
    var r5 := OptStation(m.baseStationInfo) + r6;
    var r4 := OptBool(4, m.terminalCmdResult) + r5;
    var r3 := OptCommand(3, m.terminalCmdInfo) + r4;
    var r2 := OptTerminal(m.terminalInfo) + r3;
    Emit([], OptInt32(1, m.msgId), r2);
    var o1 := [] + EncodeFields(OptInt32(1, m.msgId));
    Emit(o1, OptTerminal(m.terminalInfo), r3);
    var o2 := o1 + EncodeFields(OptTerminal(m.terminalInfo));
    Emit(o2, OptCommand(3, m.terminalCmdInfo), r4);
    var o3 := o2 + EncodeFields(OptCommand(3, m.terminalCmdInfo));
    Emit(o3, OptBool(4, m.terminalCmdResult), r5);
    var o4 := o3 + EncodeFields(OptBool(4, m.terminalCmdResult));
    Emit(o4, OptStation(m.baseStationInfo), r6);
    var o5 := o4 + EncodeFields(OptStation(m.baseStationInfo));
    Emit(o5, OptCommand(6, m.baseCmdInfo), r7);
    var o6 := o5 + EncodeFields(OptCommand(6, m.baseCmdInfo));
    Emit(o6, OptBool(7, m.baseCmdResult), r8);
    var o7 := o6 + EncodeFields(OptBool(7, m.baseCmdResult));
    Emit(o7, OptString(9, m.configFile), r9);
    var o8 := o7 + EncodeFields(OptString(9, m.configFile));
    Emit(o8, Terminals(m.terminalInfoList), r10);
    var o9 := o8 + EncodeFields(Terminals(m.terminalInfoList));
    Emit(o9, Stations(m.baseStationInfoList), m.unknown);
  }

  // ----- member by member -----

  /**
   Of two scalar values the later one counts, a submessage on both sides is merged and one on
   one side kept, lists and unknown fields are appended.
   */
  lemma MergeMembers(a: Interaction, b: Interaction)
    ensures var m := Merge(a, b);
            && m.msgId == (if b.msgId.Some? then b.msgId else a.msgId)
            && m.terminalCmdResult == (if b.terminalCmdResult.Some? then b.terminalCmdResult else a.terminalCmdResult)
            && m.baseCmdResult == (if b.baseCmdResult.Some? then b.baseCmdResult else a.baseCmdResult)
            && m.configFile == (if b.configFile.Some? then b.configFile else a.configFile)
            && m.terminalInfoList == a.terminalInfoList + b.terminalInfoList
            && m.baseStationInfoList == a.baseStationInfoList + b.baseStationInfoList
            && m.unknown == a.unknown + b.unknown
    ensures IsMergeOf(T.Merge, a.terminalInfo, b.terminalInfo, Merge(a, b).terminalInfo)
    ensures IsMergeOf(C.Merge, a.terminalCmdInfo, b.terminalCmdInfo, Merge(a, b).terminalCmdInfo)
    ensures IsMergeOf(B.Merge, a.baseStationInfo, b.baseStationInfo, Merge(a, b).baseStationInfo)
    ensures IsMergeOf(C.Merge, a.baseCmdInfo, b.baseCmdInfo, Merge(a, b).baseCmdInfo)
  {
    hide T.Merge, B.Merge, C.Merge;
    if b.terminalInfo.Some? { T.MergeIntoEmpty(b.terminalInfo.value); }
    if b.terminalCmdInfo.Some? { C.MergeIntoEmpty(b.terminalCmdInfo.value); }
    if b.baseStationInfo.Some? { B.MergeIntoEmpty(b.baseStationInfo.value); }
    if b.baseCmdInfo.Some? { C.MergeIntoEmpty(b.baseCmdInfo.value); }
  }

  predicate IsMergeOf<M(==)>(merge: (M, M) -> M, a: Option<M>, b: Option<M>, r: Option<M>) {
    && (a.Some? && b.Some? ==> r == Some(merge(a.value, b.value)))
    && (b.None? ==> r == a)
    && (a.None? ==> r == b)
  }

  /** A member of a submessage that both sides have: the later value counts there too. */
  lemma MergeNestedMembers(a: Interaction, b: Interaction)
    ensures var m := Merge(a, b).terminalInfo;
            a.terminalInfo.Some? && b.terminalInfo.Some? ==>
              && m.Some?
              && m.value.hostname == (if b.terminalInfo.value.hostname.Some? then b.terminalInfo.value.hostname
                                      else a.terminalInfo.value.hostname)
              && m.value.termConfig == (if b.terminalInfo.value.termConfig.Some? then b.terminalInfo.value.termConfig
                                        else a.terminalInfo.value.termConfig)
    ensures var m := Merge(a, b).baseStationInfo;
            a.baseStationInfo.Some? && b.baseStationInfo.Some? ==>
              && m.Some?
              && m.value.bsId == (if b.baseStationInfo.value.bsId.Some? then b.baseStationInfo.value.bsId
                                  else a.baseStationInfo.value.bsId)
    ensures var m := Merge(a, b).baseCmdInfo;
            a.baseCmdInfo.Some? && b.baseCmdInfo.Some? ==>
              && m.Some?
              && m.value.cmdId == (if b.baseCmdInfo.value.cmdId.Some? then b.baseCmdInfo.value.cmdId
                                   else a.baseCmdInfo.value.cmdId)
  {
    MergeMembers(a, b);
    if a.terminalInfo.Some? && b.terminalInfo.Some? {
      T.MergeMembers(a.terminalInfo.value, b.terminalInfo.value);
    }
    if a.baseStationInfo.Some? && b.baseStationInfo.Some? {
      B.MergeMembers(a.baseStationInfo.value, b.baseStationInfo.value);
    }
    if a.baseCmdInfo.Some? && b.baseCmdInfo.Some? {
      C.MergeMembers(a.baseCmdInfo.value, b.baseCmdInfo.value);
    }
  }

  /** A field of the right number and wire type overwrites its member. */
  lemma AbsorbMembers(m: Interaction, d: Bytes, v: uint64)
    ensures Absorb(m, Field(1, Varint(v))) == Some(m.(msgId := Some(ToInt32(v))))
    ensures Absorb(m, Field(4, Varint(v))) == Some(m.(terminalCmdResult := Some(v != 0)))
    ensures Absorb(m, Field(7, Varint(v))) == Some(m.(baseCmdResult := Some(v != 0)))
    ensures Absorb(m, Field(9, Delimited(d))) == Some(m.(configFile := Some(d)))
  {
    hide AbsorbMessage;
  }

  /**
   A submessage is merged into the one that is there, a list element goes to the end, and what
   does not parse refuses the input.
   */
  lemma AbsorbSubmessages(m: Interaction, d: Bytes)
    ensures match T.Parse(d)
            case None => Absorb(m, Field(2, Delimited(d))).None? && Absorb(m, Field(10, Delimited(d))).None?
            case Some(t) =>
              && Absorb(m, Field(2, Delimited(d))) ==
                 Some(m.(terminalInfo := Some(if m.terminalInfo.Some? then T.Merge(m.terminalInfo.value, t) else t)))
              && Absorb(m, Field(10, Delimited(d))) == Some(m.(terminalInfoList := m.terminalInfoList + [t]))
    ensures match B.Parse(d)
            case None => Absorb(m, Field(5, Delimited(d))).None? && Absorb(m, Field(11, Delimited(d))).None?
            case Some(b) =>
              && Absorb(m, Field(5, Delimited(d))) ==
                 Some(m.(baseStationInfo := Some(if m.baseStationInfo.Some? then B.Merge(m.baseStationInfo.value, b) else b)))
              && Absorb(m, Field(11, Delimited(d))) == Some(m.(baseStationInfoList := m.baseStationInfoList + [b]))
    ensures match C.Parse(false, d)
            case None => Absorb(m, Field(3, Delimited(d))).None?
            case Some(c) =>
              Absorb(m, Field(3, Delimited(d))) ==
              Some(m.(terminalCmdInfo := Some(if m.terminalCmdInfo.Some? then C.Merge(m.terminalCmdInfo.value, c) else c)))
    ensures match C.Parse(true, d)
            case None => Absorb(m, Field(6, Delimited(d))).None?
            case Some(c) =>
              Absorb(m, Field(6, Delimited(d))) ==
              Some(m.(baseCmdInfo := Some(if m.baseCmdInfo.Some? then C.Merge(m.baseCmdInfo.value, c) else c)))
  {
    hide ParseInto, T.Merge, B.Merge, C.Merge;
    T.AbsorbMerges();
    B.AbsorbMerges();
    C.AbsorbMerges(false);
    C.AbsorbMerges(true);
    ParseIsMerge(T.Absorb, T.Merge, T.EMPTY, m.terminalInfo.GetOr(T.EMPTY), d);
    ParseIsMerge(B.Absorb, B.Merge, B.EMPTY, m.baseStationInfo.GetOr(B.EMPTY), d);
    ParseIsMerge(C.Absorber(false), C.Merge, C.EMPTY, m.terminalCmdInfo.GetOr(C.EMPTY), d);
    ParseIsMerge(C.Absorber(true), C.Merge, C.EMPTY, m.baseCmdInfo.GetOr(C.EMPTY), d);
  }

  /** Every other field is kept, in the order it came. */
  lemma AbsorbOthers(m: Interaction, f: Field)
    requires f.payload.Delimited? ==> f.number !in {2, 3, 5, 6, 9, 10, 11}
    requires f.payload.Varint? ==> f.number !in {1, 4, 7}
    ensures Absorb(m, f) == Some(m.(unknown := m.unknown + [f]))
  {
    hide AbsorbMessage;
  }

  /** The elements of a list, each behind the tag. */
  function TerminalsOnWire(l: seq<T.Terminal>): Bytes {
    if l == [] then [] else StringOnWire(0x52, Some(T.Serialize(l[0]))) + TerminalsOnWire(l[1..])
  }

  function StationsOnWire(l: seq<B.BaseStation>): Bytes {
    if l == [] then [] else StringOnWire(0x5a, Some(B.Serialize(l[0]))) + StationsOnWire(l[1..])
  }

  /** The bytes: each present member behind its tag, in the order of the numbers, then the unknown fields. */
  lemma SerializedBytes(m: Interaction)
    ensures Serialize(m) ==
            []
            + VarintOnWire(0x08, if m.msgId.Some? then Some(m.msgId.value % 0x1_0000_0000_0000_0000) else None)
            + StringOnWire(0x12, if m.terminalInfo.Some? then Some(T.Serialize(m.terminalInfo.value)) else None)
            + StringOnWire(0x1a, if m.terminalCmdInfo.Some? then Some(C.Serialize(m.terminalCmdInfo.value)) else None)
            + BoolOnWire(0x20, m.terminalCmdResult)
            + StringOnWire(0x2a, if m.baseStationInfo.Some? then Some(B.Serialize(m.baseStationInfo.value)) else None)
            + StringOnWire(0x32, if m.baseCmdInfo.Some? then Some(C.Serialize(m.baseCmdInfo.value)) else None)
            + BoolOnWire(0x38, m.baseCmdResult)
            + StringOnWire(0x4a, m.configFile)
            + TerminalsOnWire(m.terminalInfoList)
            + StationsOnWire(m.baseStationInfoList)
            + EncodeFields(m.unknown)
  {
    hide EncodeFields, StringOnWire, VarintOnWire, BoolOnWire, TerminalsOnWire, StationsOnWire, OptInt32, OptBool,
      OptString, Serialize, T.Serialize, B.Serialize, C.Serialize, Terminals, Stations;
    SerializePieces(m);
    Int32Member(1, m.msgId);
    StringMember(2, if m.terminalInfo.Some? then Some(T.Serialize(m.terminalInfo.value)) else None);
    StringMember(3, if m.terminalCmdInfo.Some? then Some(C.Serialize(m.terminalCmdInfo.value)) else None);
    BoolMember(4, m.terminalCmdResult);
    StringMember(5, if m.baseStationInfo.Some? then Some(B.Serialize(m.baseStationInfo.value)) else None);
    StringMember(6, if m.baseCmdInfo.Some? then Some(C.Serialize(m.baseCmdInfo.value)) else None);
    BoolMember(7, m.baseCmdResult);
    StringMember(9, m.configFile);
    SubmessagesAreStrings(m);
    TerminalsEncoded(m.terminalInfoList);
    StationsEncoded(m.baseStationInfoList);
  }

  lemma SubmessagesAreStrings(m: Interaction)
    ensures OptTerminal(m.terminalInfo) ==
            OptString(2, if m.terminalInfo.Some? then Some(T.Serialize(m.terminalInfo.value)) else None)
    ensures OptCommand(3, m.terminalCmdInfo) ==
            OptString(3, if m.terminalCmdInfo.Some? then Some(C.Serialize(m.terminalCmdInfo.value)) else None)
    ensures OptStation(m.baseStationInfo) ==
            OptString(5, if m.baseStationInfo.Some? then Some(B.Serialize(m.baseStationInfo.value)) else None)
    ensures OptCommand(6, m.baseCmdInfo) ==
            OptString(6, if m.baseCmdInfo.Some? then Some(C.Serialize(m.baseCmdInfo.value)) else None)
  {
  }

  lemma {:induction false} TerminalsEncoded(l: seq<T.Terminal>)
    ensures EncodeFields(Terminals(l)) == TerminalsOnWire(l)
  {
    hide EncodeField, T.Serialize, EncodeVarint;
    if l != [] {
      var f := Field(10, Delimited(T.Serialize(l[0])));
      WireTypes(f);
      TerminalsEncoded(l[1..]);
      assert Terminals(l)[1..] == Terminals(l[1..]);
    }
  }

  lemma {:induction false} StationsEncoded(l: seq<B.BaseStation>)
    ensures EncodeFields(Stations(l)) == StationsOnWire(l)
  {
    hide EncodeField, B.Serialize, EncodeVarint;
    if l != [] {
      var f := Field(11, Delimited(B.Serialize(l[0])));
      WireTypes(f);
      StationsEncoded(l[1..]);
      assert Stations(l)[1..] == Stations(l[1..]);
    }
  }

  /** One more scalar at the end of any input that parses sets that member and no other ("Last One Wins"). */
  lemma LastOneWins(s: Bytes, id: int32, b: bool, d: Bytes)
    requires Parse(s).Some? && |d| < 0x8000_0000
    ensures var m := Parse(s).value;
            && Parse(s + VarintOnWire(0x08, Some(id % 0x1_0000_0000_0000_0000))) == Some(m.(msgId := Some(id)))
            && Parse(s + BoolOnWire(0x20, Some(b))) == Some(m.(terminalCmdResult := Some(b)))
            && Parse(s + BoolOnWire(0x38, Some(b))) == Some(m.(baseCmdResult := Some(b)))
            && Parse(s + StringOnWire(0x4a, Some(d))) == Some(m.(configFile := Some(d)))
  {
    hide ParseInto, Absorb, StringOnWire, VarintOnWire, BoolOnWire;
    var m := Parse(s).value;
    AbsorbMembers(m, d, if b then 1 else 0);
    AbsorbMembers(m, d, SignExtend(id));
    SignExtendIsModular(id);
    SignExtendRoundTrip(id);
    OneMoreVarint(Absorb, EMPTY, s, 1, SignExtend(id));
    OneMoreBool(Absorb, EMPTY, s, 4, b);
    OneMoreBool(Absorb, EMPTY, s, 7, b);
    OneMoreString(Absorb, EMPTY, s, 9, d);
  }

  /** One more submessage at the end merges into the one there, one more list element goes to the end. */
  lemma LastSubmessageMerges(s: Bytes, d: Bytes)
    requires Parse(s).Some? && |d| < 0x8000_0000
    ensures var m := Parse(s).value;
            && (T.Parse(d).Some? ==>
                  var t := T.Parse(d).value;
                  && Parse(s + StringOnWire(0x12, Some(d))) ==
                     Some(m.(terminalInfo := Some(if m.terminalInfo.Some? then T.Merge(m.terminalInfo.value, t) else t)))
                  && Parse(s + StringOnWire(0x52, Some(d))) == Some(m.(terminalInfoList := m.terminalInfoList + [t])))
            && (B.Parse(d).Some? ==>
                  var b := B.Parse(d).value;
                  && Parse(s + StringOnWire(0x2a, Some(d))) ==
                     Some(m.(baseStationInfo := Some(if m.baseStationInfo.Some? then B.Merge(m.baseStationInfo.value, b) else b)))
                  && Parse(s + StringOnWire(0x5a, Some(d))) == Some(m.(baseStationInfoList := m.baseStationInfoList + [b])))
            && (C.Parse(false, d).Some? ==>
                  var c := C.Parse(false, d).value;
                  Parse(s + StringOnWire(0x1a, Some(d))) ==
                  Some(m.(terminalCmdInfo := Some(if m.terminalCmdInfo.Some? then C.Merge(m.terminalCmdInfo.value, c) else c))))
            && (C.Parse(true, d).Some? ==>
                  var c := C.Parse(true, d).value;
                  Parse(s + StringOnWire(0x32, Some(d))) ==
                  Some(m.(baseCmdInfo := Some(if m.baseCmdInfo.Some? then C.Merge(m.baseCmdInfo.value, c) else c))))
  {
    hide ParseInto, Absorb, StringOnWire, T.Parse, B.Parse, C.Parse, T.Merge, B.Merge, C.Merge;
    AbsorbSubmessages(Parse(s).value, d);
    OneMoreString(Absorb, EMPTY, s, 2, d);
    OneMoreString(Absorb, EMPTY, s, 3, d);
    OneMoreString(Absorb, EMPTY, s, 5, d);
    OneMoreString(Absorb, EMPTY, s, 6, d);
    OneMoreString(Absorb, EMPTY, s, 10, d);
    OneMoreString(Absorb, EMPTY, s, 11, d);
  }

  // ----- required members -----

  /** Does one of the submessages of this number carry a field of that number and wire type? */
  ghost predicate CarriesIn(s: Bytes, outer: nat, number: nat, wireType: nat) {
    Fields(s).Some? && exists f :: f in Fields(s).value && IsIn(f, outer, number, wireType)
  }

  ghost predicate IsIn(f: Field, outer: nat, number: nat, wireType: nat) {
    f.number == outer && f.payload.Delimited? && Carries(f.payload.data, number, wireType)
  }

  ghost predicate CarriesIdIn(s: Bytes, outer: nat, base: bool) {
    Fields(s).Some? && exists f :: f in Fields(s).value && IsIdIn(f, outer, base)
  }

  ghost predicate IsIdIn(f: Field, outer: nat, base: bool) {
    f.number == outer && f.payload.Delimited? && C.CarriesId(base, f.payload.data)
  }

  /** A list element that lacks one of its required members. */
  ghost predicate IsIncomplete(f: Field) {
    && f.payload.Delimited?
    && var d := f.payload.data;
       || (f.number == 10 && !(Carries(d, 1, 2) && Carries(d, 2, 2) && Carries(d, 3, 2)))
       || (f.number == 11 && !(Carries(d, 1, 2) && Carries(d, 2, 0) && Carries(d, 3, 0)))
  }

  /** Every required member is in the input, in each submessage that is there too. */
  ghost predicate RequiredOnWire(s: Bytes) {
    && Fields(s).Some?
    && Carries(s, 1, 0)
    && (Carries(s, 2, 2) ==> CarriesIn(s, 2, 1, 2) && CarriesIn(s, 2, 2, 2) && CarriesIn(s, 2, 3, 2))
    && (Carries(s, 3, 2) ==> CarriesIdIn(s, 3, false))
    && (Carries(s, 5, 2) ==> CarriesIn(s, 5, 1, 2) && CarriesIn(s, 5, 2, 0) && CarriesIn(s, 5, 3, 0))
    && (Carries(s, 6, 2) ==> CarriesIdIn(s, 6, true))
    && (forall f :: f in Fields(s).value ==> !IsIncomplete(f))
  }

  /** An input that parses is accepted exactly if it carries every required member. */
  lemma RequiredExactly(s: Bytes)
    requires Parse(s).Some?
    ensures HasRequired(Parse(s).value) <==> RequiredOnWire(s)
  {
    hide Parse, Fields, CarriesIn, CarriesIdIn, Carries, HasRequired, HasIncomplete, IsIncomplete;
    PresentExactly(s);
    TerminalExactly(s);
    StationExactly(s);
    CommandsExactly(s);
    ListsExactly(s);
    ExpandRequired(Parse(s).value);
  }

  lemma ExpandRequired(m: Interaction)
    ensures HasRequired(m) <==>
            && m.msgId.Some?
            && !HasIncomplete(m)
            && (m.terminalInfo.Some? ==>
                  var t := m.terminalInfo.value; t.hostname.Some? && t.macAddr.Some? && t.ipAddr.Some?)
            && (m.terminalCmdInfo.Some? ==> m.terminalCmdInfo.value.cmdId.Some?)
            && (m.baseStationInfo.Some? ==>
                  var b := m.baseStationInfo.value; b.hostname.Some? && b.bsId.Some? && b.ingroupAddr.Some?)
            && (m.baseCmdInfo.Some? ==> m.baseCmdInfo.value.cmdId.Some?)
  {
  }

  ghost predicate HasIncomplete(m: Interaction) {
    || (exists t :: t in m.terminalInfoList && !(t.hostname.Some? && t.macAddr.Some? && t.ipAddr.Some?))
    || (exists b :: b in m.baseStationInfoList && !(b.hostname.Some? && b.bsId.Some? && b.ingroupAddr.Some?))
  }

  predicate IsField(f: Field, number: nat, wireType: nat) {
    f.number == number && WireType(f.payload) == wireType
  }

  /** What a field does to the presence of members. */
  lemma AbsorbPresence(a: Interaction, f: Field)
    requires Absorb(a, f).Some?
    ensures var r := Absorb(a, f).value;
            && (r.msgId.Some? <==> a.msgId.Some? || IsField(f, 1, 0))
            && (r.terminalInfo.Some? <==> a.terminalInfo.Some? || IsField(f, 2, 2))
            && (r.terminalCmdInfo.Some? <==> a.terminalCmdInfo.Some? || IsField(f, 3, 2))
            && (r.baseStationInfo.Some? <==> a.baseStationInfo.Some? || IsField(f, 5, 2))
            && (r.baseCmdInfo.Some? <==> a.baseCmdInfo.Some? || IsField(f, 6, 2))
  {
    hide ParseInto;
  }

  lemma PresentExactly(s: Bytes)
    requires Parse(s).Some?
    ensures var m := Parse(s).value;
            && (m.msgId.Some? <==> Carries(s, 1, 0))
            && (m.terminalInfo.Some? <==> Carries(s, 2, 2))
            && (m.terminalCmdInfo.Some? <==> Carries(s, 3, 2))
            && (m.baseStationInfo.Some? <==> Carries(s, 5, 2))
            && (m.baseCmdInfo.Some? <==> Carries(s, 6, 2))
  {
    hide Fields, ParseInto, Absorb;
    forall a, f | Absorb(a, f).Some?
      ensures Absorb(a, f).value.msgId.Some? <==> a.msgId.Some? || IsField(f, 1, 0)
      ensures Absorb(a, f).value.terminalInfo.Some? <==> a.terminalInfo.Some? || IsField(f, 2, 2)
      ensures Absorb(a, f).value.terminalCmdInfo.Some? <==> a.terminalCmdInfo.Some? || IsField(f, 3, 2)
      ensures Absorb(a, f).value.baseStationInfo.Some? <==> a.baseStationInfo.Some? || IsField(f, 5, 2)
      ensures Absorb(a, f).value.baseCmdInfo.Some? <==> a.baseCmdInfo.Some? || IsField(f, 6, 2)
    {
      AbsorbPresence(a, f);
    }
    ParseSets(Absorb, (x: Interaction) => x.msgId.Some?, (f: Field) => IsField(f, 1, 0), EMPTY, s);
    ParseSets(Absorb, (x: Interaction) => x.terminalInfo.Some?, (f: Field) => IsField(f, 2, 2), EMPTY, s);
    ParseSets(Absorb, (x: Interaction) => x.terminalCmdInfo.Some?, (f: Field) => IsField(f, 3, 2), EMPTY, s);
    ParseSets(Absorb, (x: Interaction) => x.baseStationInfo.Some?, (f: Field) => IsField(f, 5, 2), EMPTY, s);
    ParseSets(Absorb, (x: Interaction) => x.baseCmdInfo.Some?, (f: Field) => IsField(f, 6, 2), EMPTY, s);
  }

  predicate HasHostname(m: Interaction) { m.terminalInfo.Some? && m.terminalInfo.value.hostname.Some? }

  predicate HasMacAddr(m: Interaction) { m.terminalInfo.Some? && m.terminalInfo.value.macAddr.Some? }

  predicate HasIpAddr(m: Interaction) { m.terminalInfo.Some? && m.terminalInfo.value.ipAddr.Some? }

  lemma AbsorbTerminalMembers(a: Interaction, f: Field)
    requires Absorb(a, f).Some?
    ensures var r := Absorb(a, f).value;
            && (HasHostname(r) <==> HasHostname(a) || IsIn(f, 2, 1, 2))
            && (HasMacAddr(r) <==> HasMacAddr(a) || IsIn(f, 2, 2, 2))
            && (HasIpAddr(r) <==> HasIpAddr(a) || IsIn(f, 2, 3, 2))
  {
    hide ParseInto, Carries;
    if f.number == 2 && f.payload.Delimited? {
      T.ParsedMembers(a.terminalInfo.GetOr(T.EMPTY), f.payload.data);
    }
  }

  lemma TerminalExactly(s: Bytes)
    requires Parse(s).Some?
    ensures var m := Parse(s).value;
            && (HasHostname(m) <==> CarriesIn(s, 2, 1, 2))
            && (HasMacAddr(m) <==> CarriesIn(s, 2, 2, 2))
            && (HasIpAddr(m) <==> CarriesIn(s, 2, 3, 2))
  {
    hide Fields, ParseInto, Absorb, IsIn, HasHostname, HasMacAddr, HasIpAddr;
    forall a, f | Absorb(a, f).Some?
      ensures HasHostname(Absorb(a, f).value) <==> HasHostname(a) || IsIn(f, 2, 1, 2)
      ensures HasMacAddr(Absorb(a, f).value) <==> HasMacAddr(a) || IsIn(f, 2, 2, 2)
      ensures HasIpAddr(Absorb(a, f).value) <==> HasIpAddr(a) || IsIn(f, 2, 3, 2)
    {
      AbsorbTerminalMembers(a, f);
    }
    ParseSets(Absorb, (x: Interaction) => HasHostname(x), (f: Field) => IsIn(f, 2, 1, 2), EMPTY, s);
    ParseSets(Absorb, (x: Interaction) => HasMacAddr(x), (f: Field) => IsIn(f, 2, 2, 2), EMPTY, s);
    ParseSets(Absorb, (x: Interaction) => HasIpAddr(x), (f: Field) => IsIn(f, 2, 3, 2), EMPTY, s);
    EmptyHasNone();
  }

  lemma EmptyHasNone()
    ensures !HasHostname(EMPTY) && !HasMacAddr(EMPTY) && !HasIpAddr(EMPTY)
    ensures !HasStationName(EMPTY) && !HasBsId(EMPTY) && !HasIngroupAddr(EMPTY)
    ensures !HasIncomplete(EMPTY)
  {
  }

  predicate HasStationName(m: Interaction) { m.baseStationInfo.Some? && m.baseStationInfo.value.hostname.Some? }

  predicate HasBsId(m: Interaction) { m.baseStationInfo.Some? && m.baseStationInfo.value.bsId.Some? }

  predicate HasIngroupAddr(m: Interaction) { m.baseStationInfo.Some? && m.baseStationInfo.value.ingroupAddr.Some? }

  lemma AbsorbStationMembers(a: Interaction, f: Field)
    requires Absorb(a, f).Some?
    ensures var r := Absorb(a, f).value;
            && (HasStationName(r) <==> HasStationName(a) || IsIn(f, 5, 1, 2))
            && (HasBsId(r) <==> HasBsId(a) || IsIn(f, 5, 2, 0))
            && (HasIngroupAddr(r) <==> HasIngroupAddr(a) || IsIn(f, 5, 3, 0))
  {
    hide ParseInto, Carries;
    if f.number == 5 && f.payload.Delimited? {
      B.ParsedMembers(a.baseStationInfo.GetOr(B.EMPTY), f.payload.data);
    }
  }

  lemma StationExactly(s: Bytes)
    requires Parse(s).Some?
    ensures var m := Parse(s).value;
            && (HasStationName(m) <==> CarriesIn(s, 5, 1, 2))
            && (HasBsId(m) <==> CarriesIn(s, 5, 2, 0))
            && (HasIngroupAddr(m) <==> CarriesIn(s, 5, 3, 0))
  {
    hide Fields, ParseInto, Absorb, IsIn, HasStationName, HasBsId, HasIngroupAddr;
    forall a, f | Absorb(a, f).Some?
      ensures HasStationName(Absorb(a, f).value) <==> HasStationName(a) || IsIn(f, 5, 1, 2)
      ensures HasBsId(Absorb(a, f).value) <==> HasBsId(a) || IsIn(f, 5, 2, 0)
      ensures HasIngroupAddr(Absorb(a, f).value) <==> HasIngroupAddr(a) || IsIn(f, 5, 3, 0)
    {
      AbsorbStationMembers(a, f);
    }
    ParseSets(Absorb, (x: Interaction) => HasStationName(x), (f: Field) => IsIn(f, 5, 1, 2), EMPTY, s);
    ParseSets(Absorb, (x: Interaction) => HasBsId(x), (f: Field) => IsIn(f, 5, 2, 0), EMPTY, s);
    ParseSets(Absorb, (x: Interaction) => HasIngroupAddr(x), (f: Field) => IsIn(f, 5, 3, 0), EMPTY, s);
    EmptyHasNone();
  }

  predicate HasTermCmdId(m: Interaction) { m.terminalCmdInfo.Some? && m.terminalCmdInfo.value.cmdId.Some? }

  predicate HasBaseCmdId(m: Interaction) { m.baseCmdInfo.Some? && m.baseCmdInfo.value.cmdId.Some? }

  lemma AbsorbCommandMembers(a: Interaction, f: Field)
    requires Absorb(a, f).Some?
    ensures var r := Absorb(a, f).value;
            && (HasTermCmdId(r) <==> HasTermCmdId(a) || IsIdIn(f, 3, false))
            && (HasBaseCmdId(r) <==> HasBaseCmdId(a) || IsIdIn(f, 6, true))
  {
    hide ParseInto, C.CarriesId;
    if f.number == 3 && f.payload.Delimited? {
      C.ParsedMembers(false, a.terminalCmdInfo.GetOr(C.EMPTY), f.payload.data);
    } else if f.number == 6 && f.payload.Delimited? {
      C.ParsedMembers(true, a.baseCmdInfo.GetOr(C.EMPTY), f.payload.data);
    }
  }

  lemma CommandsExactly(s: Bytes)
    requires Parse(s).Some?
    ensures var m := Parse(s).value;
            && (HasTermCmdId(m) <==> CarriesIdIn(s, 3, false))
            && (HasBaseCmdId(m) <==> CarriesIdIn(s, 6, true))
  {
    hide Fields, ParseInto, Absorb, IsIdIn;
    forall a, f | Absorb(a, f).Some?
      ensures HasTermCmdId(Absorb(a, f).value) <==> HasTermCmdId(a) || IsIdIn(f, 3, false)
      ensures HasBaseCmdId(Absorb(a, f).value) <==> HasBaseCmdId(a) || IsIdIn(f, 6, true)
    {
      AbsorbCommandMembers(a, f);
    }
    ParseSets(Absorb, (x: Interaction) => HasTermCmdId(x), (f: Field) => IsIdIn(f, 3, false), EMPTY, s);
    ParseSets(Absorb, (x: Interaction) => HasBaseCmdId(x), (f: Field) => IsIdIn(f, 6, true), EMPTY, s);
  }

  lemma AbsorbListElement(a: Interaction, f: Field)
    requires Absorb(a, f).Some?
    ensures HasIncomplete(Absorb(a, f).value) <==> HasIncomplete(a) || IsIncomplete(f)
  {
    hide ParseInto, Carries;
    var r := Absorb(a, f).value;
    if f.number == 10 && f.payload.Delimited? {
      var t := T.Parse(f.payload.data).value;
      T.ParsedMembers(T.EMPTY, f.payload.data);
      assert t in r.terminalInfoList && forall x :: x in r.terminalInfoList <==> x in a.terminalInfoList || x == t;
    } else if f.number == 11 && f.payload.Delimited? {
      var b := B.Parse(f.payload.data).value;
      B.ParsedMembers(B.EMPTY, f.payload.data);
      assert b in r.baseStationInfoList && forall x :: x in r.baseStationInfoList <==> x in a.baseStationInfoList || x == b;
    }
  }

  lemma ListsExactly(s: Bytes)
    requires Parse(s).Some?
    ensures Fields(s).Some?
    ensures HasIncomplete(Parse(s).value) <==> exists f :: f in Fields(s).value && IsIncomplete(f)
  {
    hide Fields, ParseInto, Absorb, IsIncomplete, HasIncomplete;
    forall a, f | Absorb(a, f).Some?
      ensures HasIncomplete(Absorb(a, f).value) <==> HasIncomplete(a) || IsIncomplete(f)
    {
      AbsorbListElement(a, f);
    }
    ParseSets(Absorb, x => HasIncomplete(x), f => IsIncomplete(f), EMPTY, s);
    EmptyHasNone();
  }
}
