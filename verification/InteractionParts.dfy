/** What `interaction` does with one submessage or one list: holding, owning, resetting, writing and counting it. */
module InteractionParts {
  import opened Wrappers
  import opened Machine
  import opened WireFormat
  import opened FieldWriters
  import opened TerminalInfo
  import opened BaseStationInfo
  import opened CommandInfo

  import T = TerminalInfoSpec
  import B = BaseStationInfoSpec
  import C = CommandInfoSpec
  import I = InteractionSpec

  ghost function HeldTerminal(present: bool, x: TerminalInfo?): Option<T.Terminal>
    reads x
  {
    if present && x != null then Some(x.Value()) else None
  }

  /** An absent submessage is null or a cleared object that was kept. */
  ghost predicate SoundTerminal(present: bool, x: TerminalInfo?)
    reads x
  {
    if x == null then !present else x.Valid() && (!present ==> x.AllDefault())
  }

  ghost function HeldStation(present: bool, x: BaseStationInfo?): Option<B.BaseStation>
    reads x
  {
    if present && x != null then Some(x.Value()) else None
  }

  /** An absent submessage is null or a cleared object that was kept. */
  ghost predicate SoundStation(present: bool, x: BaseStationInfo?)
    reads x
  {
    if x == null then !present else x.Valid() && (!present ==> x.AllDefault())
  }

  ghost function HeldCommand(present: bool, x: CommandInfo?): Option<C.Command>
    reads x
  {
    if present && x != null then Some(x.Value()) else None
  }

  /** An absent submessage is null or a cleared object that was kept. */
  ghost predicate SoundCommand(base: bool, present: bool, x: CommandInfo?)
    reads x
  {
    if x == null then !present else x.Valid() && (!present ==> x.AllDefault()) && x.base == base
  }

  ghost function TerminalValues(l: seq<TerminalInfo>): (r: seq<T.Terminal>)
    reads l
    ensures |r| == |l| && forall i :: 0 <= i < |l| ==> r[i] == l[i].Value()
  {
    seq(|l|, i requires 0 <= i < |l| reads l => l[i].Value())
  }

  ghost predicate SoundTerminals(l: seq<TerminalInfo>)
    reads l
  {
    && (forall x :: x in l ==> x.Valid())
    && (forall i, j :: 0 <= i < j < |l| ==> l[i] != l[j])
  }

  ghost function StationValues(l: seq<BaseStationInfo>): (r: seq<B.BaseStation>)
    reads l
    ensures |r| == |l| && forall i :: 0 <= i < |l| ==> r[i] == l[i].Value()
  {
    seq(|l|, i requires 0 <= i < |l| reads l => l[i].Value())
  }

  ghost predicate SoundStations(l: seq<BaseStationInfo>)
    reads l
  {
    && (forall x :: x in l ==> x.Valid())
    && (forall i, j :: 0 <= i < j < |l| ==> l[i] != l[j])
  }

  /** `if (has_x()) x_->Clear()` leaves null or a cleared object. */
  method ResetTerminal(present: bool, x: TerminalInfo?)
    requires SoundTerminal(present, x)
    modifies x
    ensures SoundTerminal(false, x)
  {
    hide TerminalInfo.Valid, TerminalInfo.AllDefault;
    if present {
      x.Clear();
    }
  }

  /** `if (has_x()) x_->Clear()` leaves null or a cleared object. */
  method ResetStation(present: bool, x: BaseStationInfo?)
    requires SoundStation(present, x)
    modifies x
    ensures SoundStation(false, x)
  {
    hide BaseStationInfo.Valid, BaseStationInfo.AllDefault;
    if present {
      x.Clear();
    }
  }

  /** `if (has_x()) x_->Clear()` leaves null or a cleared object. */
  method ResetCommand(base: bool, present: bool, x: CommandInfo?)
    requires SoundCommand(base, present, x)
    modifies x
    ensures SoundCommand(base, false, x)
  {
    hide CommandInfo.Valid, CommandInfo.AllDefault;
    if present {
      x.Clear();
    }
  }

  /** `if (x_ != NULL) x_->Clear()` leaves null or a cleared object. */
  method WipeTerminal(present: bool, x: TerminalInfo?)
    requires SoundTerminal(present, x)
    modifies x
    ensures SoundTerminal(false, x) && SoundTerminal(present, x)
  {
    hide TerminalInfo.Valid, TerminalInfo.AllDefault;
    if x != null {
      x.Clear();
    }
  }

  /** `if (x_ != NULL) x_->Clear()` leaves null or a cleared object. */
  method WipeStation(present: bool, x: BaseStationInfo?)
    requires SoundStation(present, x)
    modifies x
    ensures SoundStation(false, x) && SoundStation(present, x)
  {
    hide BaseStationInfo.Valid, BaseStationInfo.AllDefault;
    if x != null {
      x.Clear();
    }
  }

  /** `if (x_ != NULL) x_->Clear()` leaves null or a cleared object. */
  method WipeCommand(base: bool, present: bool, x: CommandInfo?)
    requires SoundCommand(base, present, x)
    modifies x
    ensures SoundCommand(base, false, x) && SoundCommand(base, present, x)
  {
    hide CommandInfo.Valid, CommandInfo.AllDefault;
    if x != null {
      x.Clear();
    }
  }

  /** `if (has_x()) WriteMessageMaybeToArray(number, *x_, output)` */
  method WriteTerminal(present: bool, x: TerminalInfo?) returns (output: Bytes)
    requires present ==> x != null
    ensures output == EncodeFields(I.OptTerminal(HeldTerminal(present, x)))
  {
    hide TerminalInfo.Value, T.Serialize, EncodeVarint;
    output := [];
    if present {
      var body := x.SerializeWithCachedSizes();
      output := WriteString(2, body);
      OneFieldEncoded(Field(2, Delimited(body)));
    }
  }

  /** `if (has_x()) total_size += 1 + MessageSize(*x_)` */
  method SizeTerminal(present: bool, x: TerminalInfo?) returns (total: nat)
    requires (present ==> x != null)
    ensures total == |EncodeFields(I.OptTerminal(HeldTerminal(present, x)))|
  {
    hide TerminalInfo.Value, T.Serialize, VarintSize;
    total := 0;
    if present {
      var size := x.ByteSizeLong();
      total := 1 + DelimitedSize(size);
      OneFieldEncoded(Field(2, Delimited(T.Serialize(x.Value()))));
      VarintSizeIsLength(size);
    }
  }

  /** `if (has_x()) WriteMessageMaybeToArray(number, *x_, output)` */
  method WriteStation(present: bool, x: BaseStationInfo?) returns (output: Bytes)
    requires present ==> x != null
    ensures output == EncodeFields(I.OptStation(HeldStation(present, x)))
  {
    hide BaseStationInfo.Value, B.Serialize, EncodeVarint;
    output := [];
    if present {
      var body := x.SerializeWithCachedSizes();
      output := WriteString(5, body);
      OneFieldEncoded(Field(5, Delimited(body)));
    }
  }

  /** `if (has_x()) total_size += 1 + MessageSize(*x_)` */
  method SizeStation(present: bool, x: BaseStationInfo?) returns (total: nat)
    requires (present ==> x != null)
    ensures total == |EncodeFields(I.OptStation(HeldStation(present, x)))|
  {
    hide BaseStationInfo.Value, B.Serialize, VarintSize;
    total := 0;
    if present {
      var size := x.ByteSizeLong();
      total := 1 + DelimitedSize(size);
      OneFieldEncoded(Field(5, Delimited(B.Serialize(x.Value()))));
      VarintSizeIsLength(size);
    }
  }

  /** `if (has_x()) WriteMessageMaybeToArray(number, *x_, output)` */
  method WriteCommand(number: nat, present: bool, x: CommandInfo?) returns (output: Bytes)
    requires present ==> x != null
    ensures output == EncodeFields(I.OptCommand(number, HeldCommand(present, x)))
  {
    hide CommandInfo.Value, C.Serialize, EncodeVarint;
    output := [];
    if present {
      var body := x.SerializeWithCachedSizes();
      output := WriteString(number, body);
      OneFieldEncoded(Field(number, Delimited(body)));
    }
  }

  /** `if (has_x()) total_size += 1 + MessageSize(*x_)` */
  method SizeCommand(number: nat, present: bool, x: CommandInfo?) returns (total: nat)
    requires number < 16 && (present ==> x != null)
    ensures total == |EncodeFields(I.OptCommand(number, HeldCommand(present, x)))|
  {
    hide CommandInfo.Value, C.Serialize, VarintSize;
    total := 0;
    if present {
      var size := x.ByteSizeLong();
      total := 1 + DelimitedSize(size);
      OneFieldEncoded(Field(number, Delimited(C.Serialize(x.Value()))));
      VarintSizeIsLength(size);
    }
  }

  lemma {:induction false} AppendTerminals(l: seq<T.Terminal>, x: T.Terminal)
    ensures I.Terminals(l + [x]) == I.Terminals(l) + [Field(10, Delimited(T.Serialize(x)))]
  {
    hide T.Serialize;
    if l == [] {
      assert [] + [x] == [x];
      assert [x][1..] == [];
    } else {
      assert (l + [x])[1..] == l[1..] + [x];
      AppendTerminals(l[1..], x);
    }
  }

  /** One more element adds its record to the encoding and its size to the count. */
  lemma EncodeTerminal(l: seq<T.Terminal>, x: T.Terminal)
    ensures EncodeFields(I.Terminals(l + [x])) == EncodeFields(I.Terminals(l)) + WriteString(10, T.Serialize(x))
    ensures |EncodeFields(I.Terminals(l + [x]))| == |EncodeFields(I.Terminals(l))| + 1 + DelimitedSize(|T.Serialize(x)|)
  {
    hide T.Serialize, VarintSize;
    var f := Field(10, Delimited(T.Serialize(x)));
    AppendTerminals(l, x);
    EncodeFieldsConcatenation(I.Terminals(l), [f]);
    OneFieldEncoded(f);
    VarintSizeIsLength(|T.Serialize(x)|);
  }

  method WriteTerminals(l: seq<TerminalInfo>) returns (output: Bytes)
    ensures output == EncodeFields(I.Terminals(TerminalValues(l)))
  {
    hide EncodeFields, WriteString, TerminalInfo.Value, T.Serialize, TerminalValues, I.Terminals;
    ghost var vs := TerminalValues(l);
    NoTerminals();
    output := [];
    for i := 0 to |l|
      invariant output == EncodeFields(I.Terminals(vs[..i]))
    {
      assert vs[..i + 1] == vs[..i] + [vs[i]];
      EncodeTerminal(vs[..i], vs[i]);
      var body := l[i].SerializeWithCachedSizes();
      output := output + WriteString(10, body);
    }
    assert vs[..|l|] == vs;
  }

  lemma NoTerminals()
    ensures EncodeFields(I.Terminals([])) == []
  {
  }

  method SizeTerminals(l: seq<TerminalInfo>) returns (total: nat)
    ensures total == |EncodeFields(I.Terminals(TerminalValues(l)))|
  {
    hide EncodeFields, DelimitedSize, TerminalInfo.Value, T.Serialize, TerminalValues, I.Terminals;
    ghost var vs := TerminalValues(l);
    NoTerminals();
    total := |l|;
    for i := 0 to |l|
      invariant total == |l| - i + |EncodeFields(I.Terminals(vs[..i]))|
    {
      assert vs[..i + 1] == vs[..i] + [vs[i]];
      EncodeTerminal(vs[..i], vs[i]);
      var size := l[i].ByteSizeLong();
      total := total + DelimitedSize(size);
    }
    assert vs[..|l|] == vs;
  }

  method AllTerminalsInitialized(l: seq<TerminalInfo>) returns (ok: bool)
    ensures ok <==> forall x :: x in TerminalValues(l) ==> T.HasRequired(x)
  {
    hide TerminalInfo.Value, T.HasRequired;
    ghost var vs := TerminalValues(l);
    for i := 0 to |l|
      invariant forall j :: 0 <= j < i ==> T.HasRequired(vs[j])
    {
      ok := l[i].IsInitialized();
      if !ok {
        assert vs[i] in vs;
        return;
      }
    }
    ok := true;
  }

  lemma {:induction false} AppendStations(l: seq<B.BaseStation>, x: B.BaseStation)
    ensures I.Stations(l + [x]) == I.Stations(l) + [Field(11, Delimited(B.Serialize(x)))]
  {
    hide B.Serialize;
    if l == [] {
      assert [] + [x] == [x];
      assert [x][1..] == [];
    } else {
      assert (l + [x])[1..] == l[1..] + [x];
      AppendStations(l[1..], x);
    }
  }

  /** One more element adds its record to the encoding and its size to the count. */
  lemma EncodeStation(l: seq<B.BaseStation>, x: B.BaseStation)
    ensures EncodeFields(I.Stations(l + [x])) == EncodeFields(I.Stations(l)) + WriteString(11, B.Serialize(x))
    ensures |EncodeFields(I.Stations(l + [x]))| == |EncodeFields(I.Stations(l))| + 1 + DelimitedSize(|B.Serialize(x)|)
  {
    hide B.Serialize, VarintSize;
    var f := Field(11, Delimited(B.Serialize(x)));
    AppendStations(l, x);
    EncodeFieldsConcatenation(I.Stations(l), [f]);
    OneFieldEncoded(f);
    VarintSizeIsLength(|B.Serialize(x)|);
  }

  method WriteStations(l: seq<BaseStationInfo>) returns (output: Bytes)
    ensures output == EncodeFields(I.Stations(StationValues(l)))
  {
    hide EncodeFields, WriteString, BaseStationInfo.Value, B.Serialize, StationValues, I.Stations;
    ghost var vs := StationValues(l);
    NoStations();
    output := [];
    for i := 0 to |l|
      invariant output == EncodeFields(I.Stations(vs[..i]))
    {
      assert vs[..i + 1] == vs[..i] + [vs[i]];
      EncodeStation(vs[..i], vs[i]);
      var body := l[i].SerializeWithCachedSizes();
      output := output + WriteString(11, body);
    }
    assert vs[..|l|] == vs;
  }

  lemma NoStations()
    ensures EncodeFields(I.Stations([])) == []
  {
  }

  method SizeStations(l: seq<BaseStationInfo>) returns (total: nat)
    ensures total == |EncodeFields(I.Stations(StationValues(l)))|
  {
    hide EncodeFields, DelimitedSize, BaseStationInfo.Value, B.Serialize, StationValues, I.Stations;
    ghost var vs := StationValues(l);
    NoStations();
    total := |l|;
    for i := 0 to |l|
      invariant total == |l| - i + |EncodeFields(I.Stations(vs[..i]))|
    {
      assert vs[..i + 1] == vs[..i] + [vs[i]];
      EncodeStation(vs[..i], vs[i]);
      var size := l[i].ByteSizeLong();
      total := total + DelimitedSize(size);
    }
    assert vs[..|l|] == vs;
  }

  method AllStationsInitialized(l: seq<BaseStationInfo>) returns (ok: bool)
    ensures ok <==> forall x :: x in StationValues(l) ==> B.HasRequired(x)
  {
    hide BaseStationInfo.Value, B.HasRequired;
    ghost var vs := StationValues(l);
    for i := 0 to |l|
      invariant forall j :: 0 <= j < i ==> B.HasRequired(vs[j])
    {
      ok := l[i].IsInitialized();
      if !ok {
        assert vs[i] in vs;
        return;
      }
    }
    ok := true;
  }

  lemma NothingToMerge(a: I.Interaction, b: I.Interaction)
    requires b.terminalInfo == None && b.terminalCmdInfo == None && b.baseStationInfo == None && b.baseCmdInfo == None
    requires b.msgId == None && b.terminalCmdResult == None && b.baseCmdResult == None && b.configFile == None
    ensures I.Merge(a, b).(terminalInfoList := a.terminalInfoList, baseStationInfoList := a.baseStationInfoList,
                           unknown := a.unknown) == a
  {
  }

  lemma AbsentPieces()
    ensures EncodeFields(I.OptTerminal(None)) == [] && EncodeFields(I.OptStation(None)) == []
    ensures EncodeFields(I.OptCommand(3, None)) == [] && EncodeFields(I.OptCommand(6, None)) == []
  {
  }

  /** A submessage that is there is owned, and no other object is added by it. */
  lemma OwnedParts(i: object, ts: seq<TerminalInfo>, bs: seq<BaseStationInfo>,
                   t: TerminalInfo?, c: CommandInfo?, b: BaseStationInfo?, d: CommandInfo?)
    ensures t != null ==> OwnedBy(i, ts, bs, t, c, b, d) == OwnedBy(i, ts, bs, null, c, b, d) + {t}
    ensures c != null ==> OwnedBy(i, ts, bs, t, c, b, d) == OwnedBy(i, ts, bs, t, null, b, d) + {c}
    ensures b != null ==> OwnedBy(i, ts, bs, t, c, b, d) == OwnedBy(i, ts, bs, t, c, null, d) + {b}
    ensures d != null ==> OwnedBy(i, ts, bs, t, c, b, d) == OwnedBy(i, ts, bs, t, c, b, null) + {d}
    ensures forall x :: x in ts ==> x in OwnedBy(i, ts, bs, t, c, b, d)
    ensures forall x :: x in bs ==> x in OwnedBy(i, ts, bs, t, c, b, d)
  {
  }

  lemma OwnedWithoutLists(i: object, ts: seq<TerminalInfo>, bs: seq<BaseStationInfo>,
                          t: TerminalInfo?, c: CommandInfo?, b: BaseStationInfo?, d: CommandInfo?)
    ensures OwnedBy(i, [], [], t, c, b, d) <= OwnedBy(i, ts, bs, t, c, b, d)
  {
  }

  lemma OwnedWithoutTerminals(i: object, ts: seq<TerminalInfo>, bs: seq<BaseStationInfo>,
                              t: TerminalInfo?, c: CommandInfo?, b: BaseStationInfo?, d: CommandInfo?)
    ensures OwnedBy(i, [], bs, t, c, b, d) <= OwnedBy(i, ts, bs, t, c, b, d)
  {
  }

  lemma OwnedWithoutStations(i: object, ts: seq<TerminalInfo>, bs: seq<BaseStationInfo>,
                             t: TerminalInfo?, c: CommandInfo?, b: BaseStationInfo?, d: CommandInfo?)
    ensures OwnedBy(i, ts, [], t, c, b, d) <= OwnedBy(i, ts, bs, t, c, b, d)
  {
  }

  lemma OwnedWithTerminal(i: object, ts: seq<TerminalInfo>, bs: seq<BaseStationInfo>,
                          t: TerminalInfo?, c: CommandInfo?, b: BaseStationInfo?, d: CommandInfo?, x: TerminalInfo)
    ensures OwnedBy(i, ts + [x], bs, t, c, b, d) == OwnedBy(i, ts, bs, t, c, b, d) + {x}
  {
  }

  lemma OwnedWithStation(i: object, ts: seq<TerminalInfo>, bs: seq<BaseStationInfo>,
                         t: TerminalInfo?, c: CommandInfo?, b: BaseStationInfo?, d: CommandInfo?, x: BaseStationInfo)
    ensures OwnedBy(i, ts, bs + [x], t, c, b, d) == OwnedBy(i, ts, bs, t, c, b, d) + {x}
  {
  }

  ghost function OwnedBy(i: object, ts: seq<TerminalInfo>, bs: seq<BaseStationInfo>,
                         t: TerminalInfo?, c: CommandInfo?, b: BaseStationInfo?, d: CommandInfo?): (r: set<object>)
  {
    {i} + (set x: object | x in ts) + (set x: object | x in bs)
    + (if t == null then {} else {t}) + (if c == null then {} else {c})
    + (if b == null then {} else {b}) + (if d == null then {} else {d})
  }
}
