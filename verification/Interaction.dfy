/** `interaction` as generated: presence bits, lazily made submessages and lists of submessages. */
module InteractionMessage {
  import opened Wrappers
  import opened Machine
  import opened WireFormat
  import opened FieldFold
  import opened PresenceBits
  import opened FieldWriters
  import opened TerminalInfo
  import opened BaseStationInfo
  import opened CommandInfo
  import opened InteractionParts

  import T = TerminalInfoSpec
  import B = BaseStationInfoSpec
  import C = CommandInfoSpec
  import I = InteractionSpec

  class Interaction {
    var hasBits: bv32
    var terminalInfoList: seq<TerminalInfo>
    var baseStationInfoList: seq<BaseStationInfo>
    var configFile: Bytes
    var terminalInfo: TerminalInfo?
    var terminalCmdInfo: CommandInfo?
    var baseStationInfo: BaseStationInfo?
    var baseCmdInfo: CommandInfo?
    var msgId: int32
    var terminalCmdResult: bool
    var baseCmdResult: bool
    var unknown: seq<Field>

    /** The message and the submessages it owns. */
    ghost function Owned(): set<object>
      reads this
    {
      OwnedBy(this, terminalInfoList, baseStationInfoList, terminalInfo, terminalCmdInfo, baseStationInfo, baseCmdInfo)
    }

    /** What is owned besides one submessage does not contain it. */
    lemma OwnedRest()
      requires Tree()
      ensures terminalInfo != null ==>
                terminalInfo !in OwnedBy(this, terminalInfoList, baseStationInfoList, null, terminalCmdInfo, baseStationInfo, baseCmdInfo)
      ensures terminalCmdInfo != null ==>
                terminalCmdInfo !in OwnedBy(this, terminalInfoList, baseStationInfoList, terminalInfo, null, baseStationInfo, baseCmdInfo)
      ensures baseStationInfo != null ==>
                baseStationInfo !in OwnedBy(this, terminalInfoList, baseStationInfoList, terminalInfo, terminalCmdInfo, null, baseCmdInfo)
      ensures baseCmdInfo != null ==>
                baseCmdInfo !in OwnedBy(this, terminalInfoList, baseStationInfoList, terminalInfo, terminalCmdInfo, baseStationInfo, null)
    {
    }

    lemma OwnsItself()
      ensures this in Owned() && forall o :: o in Owned() ==> allocated(o)
    {
    }

    /** No submessage is reachable in two ways. */
    ghost predicate Tree()
      reads this
    {
      && (terminalInfo != null ==> terminalInfo !in terminalInfoList)
      && (baseStationInfo != null ==> baseStationInfo !in baseStationInfoList)
      && (terminalCmdInfo != null ==> terminalCmdInfo != baseCmdInfo)
    }

    ghost predicate ScalarsValid()
      reads this
    {
      && (!Has(hasBits, 0x01) ==> configFile == [])
      && (!Has(hasBits, 0x20) ==> msgId == 0)
      && (!Has(hasBits, 0x40) ==> !terminalCmdResult)
      && (!Has(hasBits, 0x80) ==> !baseCmdResult)
    }

    /** A member whose presence bit is off holds its default. */
    ghost predicate Valid()
      reads this, Owned()
    {
      && Tree()
      && ScalarsValid()
      && SoundTerminals(terminalInfoList)
      && SoundStations(baseStationInfoList)
      && SoundTerminal(Has(hasBits, 0x02), terminalInfo)
      && SoundCommand(false, Has(hasBits, 0x04), terminalCmdInfo)
      && SoundStation(Has(hasBits, 0x08), baseStationInfo)
      && SoundCommand(true, Has(hasBits, 0x10), baseCmdInfo)
    }

    ghost function Value(): I.Interaction
      reads this, Owned()
    {
      I.Interaction(
        Held(Has(hasBits, 0x20), msgId),
        HeldTerminal(Has(hasBits, 0x02), terminalInfo),
        HeldCommand(Has(hasBits, 0x04), terminalCmdInfo),
        Held(Has(hasBits, 0x40), terminalCmdResult),
        HeldStation(Has(hasBits, 0x08), baseStationInfo),
        HeldCommand(Has(hasBits, 0x10), baseCmdInfo),
        Held(Has(hasBits, 0x80), baseCmdResult),
        Held(Has(hasBits, 0x01), configFile),
        TerminalValues(terminalInfoList),
        StationValues(baseStationInfoList),
        unknown)
    }

    constructor ()
      ensures Valid() && Value() == I.EMPTY && fresh(Owned())
    {
      hasBits := 0;
      terminalInfoList, baseStationInfoList := [], [];
      configFile := [];
      terminalInfo, terminalCmdInfo, baseStationInfo, baseCmdInfo := null, null, null, null;
      msgId, terminalCmdResult, baseCmdResult := 0, false, false;
      unknown := [];
    }

    // ----- scalar members -----

    method TakeMsgId(present: bool, v: int32)
      requires Valid()
      modifies this
      ensures Valid() && Owned() == old(Owned())
      ensures Value() == old(Value()).(msgId := Later(old(Value()).msgId, Held(present, v)))
    {
      hide Has, With, OwnedBy, SoundTerminals, SoundStations, SoundTerminal, SoundCommand, SoundStation, HeldTerminal,
        HeldCommand, HeldStation, TerminalValues, StationValues;
      if present {
        WithBits(hasBits, 0x20);
        hasBits := With(hasBits, 0x20);
        assert Valid();
        msgId := v;
      }
    }

    method TakeTerminalCmdResult(present: bool, v: bool)
      requires Valid()
      modifies this
      ensures Valid() && Owned() == old(Owned())
      ensures Value() == old(Value()).(terminalCmdResult := Later(old(Value()).terminalCmdResult, Held(present, v)))
    {
      hide Has, With, OwnedBy, SoundTerminals, SoundStations, SoundTerminal, SoundCommand, SoundStation, HeldTerminal,
        HeldCommand, HeldStation, TerminalValues, StationValues;
      if present {
        WithBits(hasBits, 0x40);
        hasBits := With(hasBits, 0x40);
        assert Valid();
        terminalCmdResult := v;
      }
    }

    method TakeBaseCmdResult(present: bool, v: bool)
      requires Valid()
      modifies this
      ensures Valid() && Owned() == old(Owned())
      ensures Value() == old(Value()).(baseCmdResult := Later(old(Value()).baseCmdResult, Held(present, v)))
    {
      hide Has, With, OwnedBy, SoundTerminals, SoundStations, SoundTerminal, SoundCommand, SoundStation, HeldTerminal,
        HeldCommand, HeldStation, TerminalValues, StationValues;
      if present {
        WithBits(hasBits, 0x80);
        hasBits := With(hasBits, 0x80);
        assert Valid();
        baseCmdResult := v;
      }
    }

    method TakeConfigFile(present: bool, v: Bytes)
      requires Valid()
      modifies this
      ensures Valid() && Owned() == old(Owned())
      ensures Value() == old(Value()).(configFile := Later(old(Value()).configFile, Held(present, v)))
    {
      hide Has, With, OwnedBy, SoundTerminals, SoundStations, SoundTerminal, SoundCommand, SoundStation, HeldTerminal,
        HeldCommand, HeldStation, TerminalValues, StationValues;
      if present {
        WithBits(hasBits, 0x01);
        hasBits := With(hasBits, 0x01);
        assert Valid();
        configFile := v;
      }
    }

    method TakeUnknown(fs: seq<Field>)
      requires Valid()
      modifies this
      ensures Valid() && Owned() == old(Owned())
      ensures Value() == old(Value()).(unknown := old(Value()).unknown + fs)
    {
      hide Has, OwnedBy, SoundTerminals, SoundStations, SoundTerminal, SoundCommand, SoundStation, HeldTerminal,
        HeldCommand, HeldStation, TerminalValues, StationValues;
      unknown := unknown + fs;
    }

    // ----- submessages -----

    method MakeTerminalInfo()
      requires Valid()
      modifies this
      ensures Valid() && terminalInfo != null && Owned() == old(Owned()) + {terminalInfo} && hasBits == old(hasBits)
      ensures if old(terminalInfo) == null then fresh(terminalInfo) else terminalInfo == old(terminalInfo)
      ensures fresh(terminalInfo) || terminalInfo in old(Owned())
      ensures Value() == old(Value())
    {
      hide Has, OwnedBy, SoundTerminals, SoundStations, SoundCommand, SoundStation, HeldCommand, HeldStation,
        TerminalValues, StationValues, TerminalInfo.Valid, TerminalInfo.Value, TerminalInfo.AllDefault;
      if terminalInfo == null {
        terminalInfo := new TerminalInfo();
      }
      OwnedParts(this, terminalInfoList, baseStationInfoList, terminalInfo, terminalCmdInfo, baseStationInfo, baseCmdInfo);
    }

    method MarkTerminalInfo()
      requires Valid() && terminalInfo != null
      modifies this`hasBits
      ensures Valid() && Has(hasBits, 0x02) && Owned() == old(Owned())
      ensures terminalInfo.Valid() && Value().terminalInfo == Some(terminalInfo.Value())
      ensures Value() == old(Value()).(terminalInfo := Some(old(Value()).terminalInfo.GetOr(T.EMPTY)))
    {
      hide Has, With, OwnedBy, SoundTerminals, SoundStations, SoundCommand, SoundStation, HeldCommand, HeldStation,
        TerminalValues, StationValues, TerminalInfo.Valid, TerminalInfo.Value, TerminalInfo.AllDefault;
      if !Has(hasBits, 0x02) {
        terminalInfo.DefaultIsEmpty();
      }
      WithBits(hasBits, 0x02);
      hasBits := With(hasBits, 0x02);
    }

    method MutableTerminalInfo() returns (x: TerminalInfo)
      requires Valid()
      modifies this
      ensures Valid() && x == terminalInfo && Has(hasBits, 0x02) && Owned() == old(Owned()) + {x}
      ensures if old(terminalInfo) == null then fresh(x) else x == old(terminalInfo)
      ensures Value() == old(Value()).(terminalInfo := Some(old(Value()).terminalInfo.GetOr(T.EMPTY)))
      ensures x.Valid() && Value().terminalInfo == Some(x.Value())
      ensures fresh(x) || x in old(Owned())
    {
      hide Valid, Value, Owned, Has, TerminalInfo.Valid, TerminalInfo.Value;
      MakeTerminalInfo();
      MarkTerminalInfo();
      x := terminalInfo;
    }

    method MakeTerminalCmdInfo()
      requires Valid()
      modifies this
      ensures Valid() && terminalCmdInfo != null && Owned() == old(Owned()) + {terminalCmdInfo} && hasBits == old(hasBits)
      ensures if old(terminalCmdInfo) == null then fresh(terminalCmdInfo) else terminalCmdInfo == old(terminalCmdInfo)
      ensures fresh(terminalCmdInfo) || terminalCmdInfo in old(Owned())
      ensures Value() == old(Value())
    {
      hide Has, OwnedBy, SoundTerminals, SoundStations, SoundTerminal, SoundStation, HeldTerminal, HeldStation,
        TerminalValues, StationValues, CommandInfo.Valid, CommandInfo.Value, CommandInfo.AllDefault;
      if terminalCmdInfo == null {
        terminalCmdInfo := new CommandInfo(false);
      }
      OwnedParts(this, terminalInfoList, baseStationInfoList, terminalInfo, terminalCmdInfo, baseStationInfo, baseCmdInfo);
    }

    method MarkTerminalCmdInfo()
      requires Valid() && terminalCmdInfo != null
      modifies this`hasBits
      ensures Valid() && Has(hasBits, 0x04) && Owned() == old(Owned())
      ensures terminalCmdInfo.Valid() && Value().terminalCmdInfo == Some(terminalCmdInfo.Value()) && !terminalCmdInfo.base
      ensures Value() == old(Value()).(terminalCmdInfo := Some(old(Value()).terminalCmdInfo.GetOr(C.EMPTY)))
    {
      hide Has, With, OwnedBy, SoundTerminals, SoundStations, SoundTerminal, SoundStation, HeldTerminal, HeldStation,
        TerminalValues, StationValues, CommandInfo.Valid, CommandInfo.Value, CommandInfo.AllDefault;
      if !Has(hasBits, 0x04) {
        terminalCmdInfo.DefaultIsEmpty();
      }
      WithBits(hasBits, 0x04);
      hasBits := With(hasBits, 0x04);
    }

    method MutableTerminalCmdInfo() returns (x: CommandInfo)
      requires Valid()
      modifies this
      ensures Valid() && x == terminalCmdInfo && Has(hasBits, 0x04) && Owned() == old(Owned()) + {x}
      ensures if old(terminalCmdInfo) == null then fresh(x) else x == old(terminalCmdInfo)
      ensures Value() == old(Value()).(terminalCmdInfo := Some(old(Value()).terminalCmdInfo.GetOr(C.EMPTY)))
      ensures x.Valid() && Value().terminalCmdInfo == Some(x.Value()) && !x.base
      ensures fresh(x) || x in old(Owned())
    {
      hide Valid, Value, Owned, Has, CommandInfo.Valid, CommandInfo.Value;
      MakeTerminalCmdInfo();
      MarkTerminalCmdInfo();
      x := terminalCmdInfo;
    }

    method MakeBaseStationInfo()
      requires Valid()
      modifies this
      ensures Valid() && baseStationInfo != null && Owned() == old(Owned()) + {baseStationInfo} && hasBits == old(hasBits)
      ensures if old(baseStationInfo) == null then fresh(baseStationInfo) else baseStationInfo == old(baseStationInfo)
      ensures fresh(baseStationInfo) || baseStationInfo in old(Owned())
      ensures Value() == old(Value())
    {
      hide Has, OwnedBy, SoundTerminals, SoundStations, SoundTerminal, SoundCommand, HeldTerminal, HeldCommand,
        TerminalValues, StationValues, BaseStationInfo.Valid, BaseStationInfo.Value, BaseStationInfo.AllDefault;
      if baseStationInfo == null {
        baseStationInfo := new BaseStationInfo();
      }
      OwnedParts(this, terminalInfoList, baseStationInfoList, terminalInfo, terminalCmdInfo, baseStationInfo, baseCmdInfo);
    }

    method MarkBaseStationInfo()
      requires Valid() && baseStationInfo != null
      modifies this`hasBits
      ensures Valid() && Has(hasBits, 0x08) && Owned() == old(Owned())
      ensures baseStationInfo.Valid() && Value().baseStationInfo == Some(baseStationInfo.Value())
      ensures Value() == old(Value()).(baseStationInfo := Some(old(Value()).baseStationInfo.GetOr(B.EMPTY)))
    {
      hide Has, With, OwnedBy, SoundTerminals, SoundStations, SoundTerminal, SoundCommand, HeldTerminal, HeldCommand,
        TerminalValues, StationValues, BaseStationInfo.Valid, BaseStationInfo.Value, BaseStationInfo.AllDefault;
      if !Has(hasBits, 0x08) {
        baseStationInfo.DefaultIsEmpty();
      }
      WithBits(hasBits, 0x08);
      hasBits := With(hasBits, 0x08);
    }

    method MutableBaseStationInfo() returns (x: BaseStationInfo)
      requires Valid()
      modifies this
      ensures Valid() && x == baseStationInfo && Has(hasBits, 0x08) && Owned() == old(Owned()) + {x}
      ensures if old(baseStationInfo) == null then fresh(x) else x == old(baseStationInfo)
      ensures Value() == old(Value()).(baseStationInfo := Some(old(Value()).baseStationInfo.GetOr(B.EMPTY)))
      ensures x.Valid() && Value().baseStationInfo == Some(x.Value())
      ensures fresh(x) || x in old(Owned())
    {
      hide Valid, Value, Owned, Has, BaseStationInfo.Valid, BaseStationInfo.Value;
      MakeBaseStationInfo();
      MarkBaseStationInfo();
      x := baseStationInfo;
    }

    method MakeBaseCmdInfo()
      requires Valid()
      modifies this
      ensures Valid() && baseCmdInfo != null && Owned() == old(Owned()) + {baseCmdInfo} && hasBits == old(hasBits)
      ensures if old(baseCmdInfo) == null then fresh(baseCmdInfo) else baseCmdInfo == old(baseCmdInfo)
      ensures fresh(baseCmdInfo) || baseCmdInfo in old(Owned())
      ensures Value() == old(Value())
    {
      hide Has, OwnedBy, SoundTerminals, SoundStations, SoundTerminal, SoundStation, HeldTerminal, HeldStation,
        TerminalValues, StationValues, CommandInfo.Valid, CommandInfo.Value, CommandInfo.AllDefault;
      if baseCmdInfo == null {
        baseCmdInfo := new CommandInfo(true);
      }
      OwnedParts(this, terminalInfoList, baseStationInfoList, terminalInfo, terminalCmdInfo, baseStationInfo, baseCmdInfo);
    }

    method MarkBaseCmdInfo()
      requires Valid() && baseCmdInfo != null
      modifies this`hasBits
      ensures Valid() && Has(hasBits, 0x10) && Owned() == old(Owned())
      ensures baseCmdInfo.Valid() && Value().baseCmdInfo == Some(baseCmdInfo.Value()) && baseCmdInfo.base
      ensures Value() == old(Value()).(baseCmdInfo := Some(old(Value()).baseCmdInfo.GetOr(C.EMPTY)))
    {
      hide Has, With, OwnedBy, SoundTerminals, SoundStations, SoundTerminal, SoundStation, HeldTerminal, HeldStation,
        TerminalValues, StationValues, CommandInfo.Valid, CommandInfo.Value, CommandInfo.AllDefault;
      if !Has(hasBits, 0x10) {
        baseCmdInfo.DefaultIsEmpty();
      }
      WithBits(hasBits, 0x10);
      hasBits := With(hasBits, 0x10);
    }

    method MutableBaseCmdInfo() returns (x: CommandInfo)
      requires Valid()
      modifies this
      ensures Valid() && x == baseCmdInfo && Has(hasBits, 0x10) && Owned() == old(Owned()) + {x}
      ensures if old(baseCmdInfo) == null then fresh(x) else x == old(baseCmdInfo)
      ensures Value() == old(Value()).(baseCmdInfo := Some(old(Value()).baseCmdInfo.GetOr(C.EMPTY)))
      ensures x.Valid() && Value().baseCmdInfo == Some(x.Value()) && x.base
      ensures fresh(x) || x in old(Owned())
    {
      hide Valid, Value, Owned, Has, CommandInfo.Valid, CommandInfo.Value;
      MakeBaseCmdInfo();
      MarkBaseCmdInfo();
      x := baseCmdInfo;
    }

    /** Changing the submessage through its own methods changes that member and nothing else. */
    twostate lemma TerminalInfoChanged()
      requires old(Valid()) && unchanged(this) && unchanged(old(Owned()) - {this, terminalInfo})
      requires terminalInfo != null && Has(hasBits, 0x02) && terminalInfo.Valid()
      ensures Valid() && Value() == old(Value()).(terminalInfo := Some(terminalInfo.Value()))
    {
      hide Has, SoundTerminals, SoundStations, SoundCommand, SoundStation, HeldCommand, HeldStation, TerminalValues,
        StationValues, TerminalInfo.Valid, TerminalInfo.Value, TerminalInfo.AllDefault;
    }

    method TakeTerminalInfo(present: bool, from: TerminalInfo?)
      requires Valid() && (present ==> from != null && from.Valid() && from !in Owned())
      modifies Owned()
      ensures Valid() && forall o :: o in Owned() ==> o in old(Owned()) || fresh(o)
      ensures Value() == old(Value()).(terminalInfo :=
                I.MergeMessage(T.Merge, T.EMPTY, old(Value()).terminalInfo, old(HeldTerminal(present, from))))
    {
      hide Valid, Value, Owned, Has, TerminalInfo.Valid, TerminalInfo.Value, T.Merge;
      OwnsItself();
      if present {
        var x := MutableTerminalInfo();
        OwnsItself();
        label made:
        x.MergeFrom(from);
        TerminalInfoChanged@made();
      }
    }

    method ParseTerminalInfo(s: Bytes) returns (ok: bool)
      requires Valid()
      modifies Owned()
      ensures Valid() && forall o :: o in Owned() ==> o in old(Owned()) || fresh(o)
      ensures var r := ParseInto(T.Absorb, old(Value()).terminalInfo.GetOr(T.EMPTY), s);
              if ok then r.Some? && Value() == old(Value()).(terminalInfo := r) else r.None?
    {
      hide Valid, Value, Owned, Has, TerminalInfo.Valid, TerminalInfo.Value, ParseInto;
      OwnsItself();
      var x := MutableTerminalInfo();
      OwnsItself();
      label made:
      ok := x.MergePartialFromCodedStream(s);
      TerminalInfoChanged@made();
    }

    /** Changing the submessage through its own methods changes that member and nothing else. */
    twostate lemma TerminalCmdInfoChanged()
      requires old(Valid()) && unchanged(this) && unchanged(old(Owned()) - {this, terminalCmdInfo})
      requires terminalCmdInfo != null && Has(hasBits, 0x04) && terminalCmdInfo.Valid()
      ensures Valid() && Value() == old(Value()).(terminalCmdInfo := Some(terminalCmdInfo.Value()))
    {
      hide Has, SoundTerminals, SoundStations, SoundTerminal, SoundStation, HeldTerminal, HeldStation, TerminalValues,
        StationValues, CommandInfo.Valid, CommandInfo.Value, CommandInfo.AllDefault;
    }

    method TakeTerminalCmdInfo(present: bool, from: CommandInfo?)
      requires Valid() && (present ==> from != null && from.Valid() && from !in Owned())
      modifies Owned()
      ensures Valid() && forall o :: o in Owned() ==> o in old(Owned()) || fresh(o)
      ensures Value() == old(Value()).(terminalCmdInfo :=
                I.MergeMessage(C.Merge, C.EMPTY, old(Value()).terminalCmdInfo, old(HeldCommand(present, from))))
    {
      hide Valid, Value, Owned, Has, CommandInfo.Valid, CommandInfo.Value, C.Merge;
      OwnsItself();
      if present {
        var x := MutableTerminalCmdInfo();
        OwnsItself();
        label made:
        x.MergeFrom(from);
        TerminalCmdInfoChanged@made();
      }
    }

    method ParseTerminalCmdInfo(s: Bytes) returns (ok: bool)
      requires Valid()
      modifies Owned()
      ensures Valid() && forall o :: o in Owned() ==> o in old(Owned()) || fresh(o)
      ensures var r := ParseInto(C.Absorber(false), old(Value()).terminalCmdInfo.GetOr(C.EMPTY), s);
              if ok then r.Some? && Value() == old(Value()).(terminalCmdInfo := r) else r.None?
    {
      hide Valid, Value, Owned, Has, CommandInfo.Valid, CommandInfo.Value, ParseInto;
      OwnsItself();
      var x := MutableTerminalCmdInfo();
      OwnsItself();
      label made:
      ok := x.MergePartialFromCodedStream(s);
      TerminalCmdInfoChanged@made();
    }

    /** Changing the submessage through its own methods changes that member and nothing else. */
    twostate lemma BaseStationInfoChanged()
      requires old(Valid()) && unchanged(this) && unchanged(old(Owned()) - {this, baseStationInfo})
      requires baseStationInfo != null && Has(hasBits, 0x08) && baseStationInfo.Valid()
      ensures Valid() && Value() == old(Value()).(baseStationInfo := Some(baseStationInfo.Value()))
    {
      hide Has, SoundTerminals, SoundStations, SoundTerminal, SoundCommand, HeldTerminal, HeldCommand, TerminalValues,
        StationValues, BaseStationInfo.Valid, BaseStationInfo.Value, BaseStationInfo.AllDefault;
    }

    method TakeBaseStationInfo(present: bool, from: BaseStationInfo?)
      requires Valid() && (present ==> from != null && from.Valid() && from !in Owned())
      modifies Owned()
      ensures Valid() && forall o :: o in Owned() ==> o in old(Owned()) || fresh(o)
      ensures Value() == old(Value()).(baseStationInfo :=
                I.MergeMessage(B.Merge, B.EMPTY, old(Value()).baseStationInfo, old(HeldStation(present, from))))
    {
      hide Valid, Value, Owned, Has, BaseStationInfo.Valid, BaseStationInfo.Value, B.Merge;
      OwnsItself();
      if present {
        var x := MutableBaseStationInfo();
        OwnsItself();
        label made:
        x.MergeFrom(from);
        BaseStationInfoChanged@made();
      }
    }

    method ParseBaseStationInfo(s: Bytes) returns (ok: bool)
      requires Valid()
      modifies Owned()
      ensures Valid() && forall o :: o in Owned() ==> o in old(Owned()) || fresh(o)
      ensures var r := ParseInto(B.Absorb, old(Value()).baseStationInfo.GetOr(B.EMPTY), s);
              if ok then r.Some? && Value() == old(Value()).(baseStationInfo := r) else r.None?
    {
      hide Valid, Value, Owned, Has, BaseStationInfo.Valid, BaseStationInfo.Value, ParseInto;
      OwnsItself();
      var x := MutableBaseStationInfo();
      OwnsItself();
      label made:
      ok := x.MergePartialFromCodedStream(s);
      BaseStationInfoChanged@made();
    }

    /** Changing the submessage through its own methods changes that member and nothing else. */
    twostate lemma BaseCmdInfoChanged()
      requires old(Valid()) && unchanged(this) && unchanged(old(Owned()) - {this, baseCmdInfo})
      requires baseCmdInfo != null && Has(hasBits, 0x10) && baseCmdInfo.Valid()
      ensures Valid() && Value() == old(Value()).(baseCmdInfo := Some(baseCmdInfo.Value()))
    {
      hide Has, SoundTerminals, SoundStations, SoundTerminal, SoundStation, HeldTerminal, HeldStation, TerminalValues,
        StationValues, CommandInfo.Valid, CommandInfo.Value, CommandInfo.AllDefault;
    }

    method TakeBaseCmdInfo(present: bool, from: CommandInfo?)
      requires Valid() && (present ==> from != null && from.Valid() && from !in Owned())
      modifies Owned()
      ensures Valid() && forall o :: o in Owned() ==> o in old(Owned()) || fresh(o)
      ensures Value() == old(Value()).(baseCmdInfo :=
                I.MergeMessage(C.Merge, C.EMPTY, old(Value()).baseCmdInfo, old(HeldCommand(present, from))))
    {
      hide Valid, Value, Owned, Has, CommandInfo.Valid, CommandInfo.Value, C.Merge;
      OwnsItself();
      if present {
        var x := MutableBaseCmdInfo();
        OwnsItself();
        label made:
        x.MergeFrom(from);
        BaseCmdInfoChanged@made();
      }
    }

    method ParseBaseCmdInfo(s: Bytes) returns (ok: bool)
      requires Valid()
      modifies Owned()
      ensures Valid() && forall o :: o in Owned() ==> o in old(Owned()) || fresh(o)
      ensures var r := ParseInto(C.Absorber(true), old(Value()).baseCmdInfo.GetOr(C.EMPTY), s);
              if ok then r.Some? && Value() == old(Value()).(baseCmdInfo := r) else r.None?
    {
      hide Valid, Value, Owned, Has, CommandInfo.Valid, CommandInfo.Value, ParseInto;
      OwnsItself();
      var x := MutableBaseCmdInfo();
      OwnsItself();
      label made:
      ok := x.MergePartialFromCodedStream(s);
      BaseCmdInfoChanged@made();
    }

    // ----- lists of submessages -----

    method PushTerminal(x: TerminalInfo)
      requires Valid() && x.Valid() && x !in Owned()
      modifies this`terminalInfoList
      ensures Valid() && Owned() == old(Owned()) + {x}
      ensures terminalInfoList == old(terminalInfoList) + [x]
      ensures Value() == old(Value()).(terminalInfoList := old(Value()).terminalInfoList + [x.Value()])
    {
      hide Has, OwnedBy, SoundStations, SoundTerminal, SoundCommand, SoundStation, HeldTerminal, HeldCommand,
        HeldStation, StationValues, TerminalInfo.Valid, TerminalInfo.Value;
      OwnedParts(this, terminalInfoList, baseStationInfoList, terminalInfo, terminalCmdInfo, baseStationInfo, baseCmdInfo);
      OwnedWithTerminal(this, terminalInfoList, baseStationInfoList, terminalInfo, terminalCmdInfo, baseStationInfo, baseCmdInfo, x);
      terminalInfoList := terminalInfoList + [x];
    }

    /** `ReadMessage(input, add_terminal_info_list())` */
    method ParseTerminalElement(s: Bytes) returns (ok: bool)
      requires Valid()
      modifies this`terminalInfoList
      ensures Valid() && forall o :: o in Owned() ==> o in old(Owned()) || fresh(o)
      ensures var r := T.Parse(s);
              if ok then r.Some? && Value() == old(Value()).(terminalInfoList := old(Value()).terminalInfoList + [r.value]) else r.None?
    {
      hide Valid, Value, Owned, Has, TerminalInfo.Valid, TerminalInfo.Value, TerminalInfo.AllDefault, ParseInto;
      OwnsItself();
      var x := new TerminalInfo();
      ok := x.MergePartialFromCodedStream(s);
      PushTerminal(x);
    }

    /** `terminal_info_list_.MergeFrom(from.terminal_info_list_)`: copies of the elements go to the end. */
    method AppendTerminals(from: seq<TerminalInfo>)
      requires Valid() && forall x :: x in from ==> x.Valid() && x !in Owned()
      modifies this`terminalInfoList
      ensures Valid() && forall o :: o in Owned() ==> o in old(Owned()) || fresh(o)
      ensures Value() == old(Value()).(terminalInfoList := old(Value()).terminalInfoList + old(TerminalValues(from)))
    {
      hide Valid, Value, Owned, Has, TerminalInfo.Valid, TerminalInfo.Value, TerminalInfo.AllDefault, T.Merge,
        TerminalValues;
      ghost var v, w := Value(), TerminalValues(from);
      assert v.terminalInfoList + w[..0] == v.terminalInfoList;
      for i := 0 to |from|
        invariant Valid() && forall o :: o in Owned() ==> o in old(Owned()) || fresh(o)
        invariant Value() == v.(terminalInfoList := v.terminalInfoList + w[..i])
      {
        OwnsItself();
        var x := new TerminalInfo();
        x.MergeFrom(from[i]);
        T.MergeIntoEmpty(w[i]);
        PushTerminal(x);
        assert v.terminalInfoList + w[..i + 1] == v.terminalInfoList + w[..i] + [w[i]];
      }
      assert w[..|from|] == w;
    }

    method PushStation(x: BaseStationInfo)
      requires Valid() && x.Valid() && x !in Owned()
      modifies this`baseStationInfoList
      ensures Valid() && Owned() == old(Owned()) + {x}
      ensures baseStationInfoList == old(baseStationInfoList) + [x]
      ensures Value() == old(Value()).(baseStationInfoList := old(Value()).baseStationInfoList + [x.Value()])
    {
      hide Has, OwnedBy, SoundTerminals, SoundTerminal, SoundCommand, SoundStation, HeldTerminal, HeldCommand,
        HeldStation, TerminalValues, BaseStationInfo.Valid, BaseStationInfo.Value;
      OwnedParts(this, terminalInfoList, baseStationInfoList, terminalInfo, terminalCmdInfo, baseStationInfo, baseCmdInfo);
      OwnedWithStation(this, terminalInfoList, baseStationInfoList, terminalInfo, terminalCmdInfo, baseStationInfo, baseCmdInfo, x);
      baseStationInfoList := baseStationInfoList + [x];
    }

    /** `ReadMessage(input, add_base_station_info_list())` */
    method ParseStationElement(s: Bytes) returns (ok: bool)
      requires Valid()
      modifies this`baseStationInfoList
      ensures Valid() && forall o :: o in Owned() ==> o in old(Owned()) || fresh(o)
      ensures var r := B.Parse(s);
              if ok then r.Some? && Value() == old(Value()).(baseStationInfoList := old(Value()).baseStationInfoList + [r.value]) else r.None?
    {
      hide Valid, Value, Owned, Has, BaseStationInfo.Valid, BaseStationInfo.Value, BaseStationInfo.AllDefault,
        ParseInto;
      OwnsItself();
      var x := new BaseStationInfo();
      ok := x.MergePartialFromCodedStream(s);
      PushStation(x);
    }

    /** `base_station_info_list_.MergeFrom(from.base_station_info_list_)`: copies of the elements go to the end. */
    method AppendStations(from: seq<BaseStationInfo>)
      requires Valid() && forall x :: x in from ==> x.Valid() && x !in Owned()
      modifies this`baseStationInfoList
      ensures Valid() && forall o :: o in Owned() ==> o in old(Owned()) || fresh(o)
      ensures Value() == old(Value()).(baseStationInfoList := old(Value()).baseStationInfoList + old(StationValues(from)))
    {
      hide Valid, Value, Owned, Has, BaseStationInfo.Valid, BaseStationInfo.Value, BaseStationInfo.AllDefault,
        B.Merge, StationValues;
      ghost var v, w := Value(), StationValues(from);
      assert v.baseStationInfoList + w[..0] == v.baseStationInfoList;
      for i := 0 to |from|
        invariant Valid() && forall o :: o in Owned() ==> o in old(Owned()) || fresh(o)
        invariant Value() == v.(baseStationInfoList := v.baseStationInfoList + w[..i])
      {
        OwnsItself();
        var x := new BaseStationInfo();
        x.MergeFrom(from[i]);
        B.MergeIntoEmpty(w[i]);
        PushStation(x);
        assert v.baseStationInfoList + w[..i + 1] == v.baseStationInfoList + w[..i] + [w[i]];
      }
      assert w[..|from|] == w;
    }

    // ----- whole messages -----

    method ClearGroup(cached: bv32)
      requires Valid() && cached == hasBits
      modifies this`configFile, terminalInfo, terminalCmdInfo, baseStationInfo, baseCmdInfo
      ensures configFile == []
      ensures SoundTerminal(false, terminalInfo) && SoundStation(false, baseStationInfo)
      ensures SoundCommand(false, false, terminalCmdInfo) && SoundCommand(true, false, baseCmdInfo)
    {
      hide Has, SoundTerminals, SoundStations, SoundTerminal, SoundCommand, SoundStation, HeldTerminal, HeldCommand,
        HeldStation, TerminalValues, StationValues;
      GroupBits(cached, 31);
      if Has(cached, 31) {
        configFile := Cleared(Has(cached, 0x01), configFile);
        ResetTerminal(Has(cached, 0x02), terminalInfo);
        ResetCommand(false, Has(cached, 0x04), terminalCmdInfo);
        ResetStation(Has(cached, 0x08), baseStationInfo);
        ResetCommand(true, Has(cached, 0x10), baseCmdInfo);
      }
    }

    method ClearScalarGroup(cached: bv32)
      requires ScalarsValid() && cached == hasBits
      modifies this`msgId, this`terminalCmdResult, this`baseCmdResult
      ensures msgId == 0 && !terminalCmdResult && !baseCmdResult
    {
      hide Has;
      GroupBits(cached, 224);
      if Has(cached, 224) {
        msgId, terminalCmdResult, baseCmdResult := 0, false, false;
      }
    }

    method ClearUngrouped()
      requires Tree() && configFile == [] && msgId == 0 && !terminalCmdResult && !baseCmdResult
      requires SoundTerminal(false, terminalInfo) && SoundStation(false, baseStationInfo)
      requires SoundCommand(false, false, terminalCmdInfo) && SoundCommand(true, false, baseCmdInfo)
      modifies this`terminalInfoList, this`baseStationInfoList, this`hasBits, this`unknown
      ensures Valid() && Owned() <= old(Owned()) && hasBits == 0
      ensures Value() == I.EMPTY
    {
      hide Has, OwnedBy, SoundTerminals, SoundStations, SoundTerminal, SoundCommand, SoundStation, HeldTerminal,
        HeldCommand, HeldStation, TerminalValues, StationValues;
      OwnedWithoutLists(this, terminalInfoList, baseStationInfoList, terminalInfo, terminalCmdInfo, baseStationInfo, baseCmdInfo);
      terminalInfoList := [];
      baseStationInfoList := [];
      hasBits := 0;
      unknown := [];
      NoBits();
      NothingHeld();
    }

    /** The mask-guarded reset: every member is default again, submessages are kept but cleared. */
    method Clear()
      requires Valid()
      modifies Owned()
      ensures Valid() && Owned() <= old(Owned()) && hasBits == 0
      ensures Value() == I.EMPTY
    {
      hide Has, OwnedBy, Value, SoundTerminals, SoundStations, SoundTerminal, SoundCommand, SoundStation,
        HeldTerminal, HeldCommand, HeldStation, TerminalValues, StationValues;
      OwnedParts(this, terminalInfoList, baseStationInfoList, terminalInfo, terminalCmdInfo, baseStationInfo, baseCmdInfo);
      OwnsItself();
      ClearGroup(hasBits);
      ClearScalarGroup(hasBits);
      ClearUngrouped();
    }

    lemma NothingHeld()
      ensures HeldTerminal(false, terminalInfo) == None && HeldStation(false, baseStationInfo) == None
      ensures HeldCommand(false, terminalCmdInfo) == None && HeldCommand(false, baseCmdInfo) == None
      ensures SoundTerminals([]) && SoundStations([])
      ensures TerminalValues([]) == [] && StationValues([]) == []
    {
    }

    lemma OwnsParts()
      ensures terminalInfo != null ==> terminalInfo in Owned()
      ensures terminalCmdInfo != null ==> terminalCmdInfo in Owned()
      ensures baseStationInfo != null ==> baseStationInfo in Owned()
      ensures baseCmdInfo != null ==> baseCmdInfo in Owned()
      ensures forall x :: x in terminalInfoList ==> x in Owned()
      ensures forall x :: x in baseStationInfoList ==> x in Owned()
    {
    }

    lemma ValidParts()
      requires Valid()
      ensures forall x :: x in terminalInfoList ==> x.Valid()
      ensures forall x :: x in baseStationInfoList ==> x.Valid()
      ensures terminalInfo != null ==> terminalInfo.Valid()
      ensures terminalCmdInfo != null ==> terminalCmdInfo.Valid()
      ensures baseStationInfo != null ==> baseStationInfo.Valid()
      ensures baseCmdInfo != null ==> baseCmdInfo.Valid()
      ensures Has(hasBits, 0x02) ==> terminalInfo != null
      ensures Has(hasBits, 0x04) ==> terminalCmdInfo != null
      ensures Has(hasBits, 0x08) ==> baseStationInfo != null
      ensures Has(hasBits, 0x10) ==> baseCmdInfo != null
    {
      hide Has, TerminalInfo.Valid, CommandInfo.Valid, BaseStationInfo.Valid;
    }

    lemma ValueParts()
      ensures Value().msgId == Held(Has(hasBits, 0x20), msgId)
      ensures Value().terminalInfo == HeldTerminal(Has(hasBits, 0x02), terminalInfo)
      ensures Value().terminalCmdInfo == HeldCommand(Has(hasBits, 0x04), terminalCmdInfo)
      ensures Value().terminalCmdResult == Held(Has(hasBits, 0x40), terminalCmdResult)
      ensures Value().baseStationInfo == HeldStation(Has(hasBits, 0x08), baseStationInfo)
      ensures Value().baseCmdInfo == HeldCommand(Has(hasBits, 0x10), baseCmdInfo)
      ensures Value().baseCmdResult == Held(Has(hasBits, 0x80), baseCmdResult)
      ensures Value().configFile == Held(Has(hasBits, 0x01), configFile)
      ensures Value().terminalInfoList == TerminalValues(terminalInfoList)
      ensures Value().baseStationInfoList == StationValues(baseStationInfoList)
      ensures Value().unknown == unknown
    {
      hide Has, HeldTerminal, HeldCommand, HeldStation, TerminalValues, StationValues;
    }

    lemma AbsentParts()
      ensures HeldTerminal(false, terminalInfo) == None && HeldStation(false, baseStationInfo) == None
      ensures HeldCommand(false, terminalCmdInfo) == None && HeldCommand(false, baseCmdInfo) == None
    {
    }

    method MergeMessages(from: Interaction)
      requires Valid() && from.Valid() && Owned() !! from.Owned()
      modifies Owned()
      ensures Valid() && forall o :: o in Owned() ==> o in old(Owned()) || fresh(o)
      ensures Value() == old(Value()).(
                terminalInfo := I.MergeMessage(T.Merge, T.EMPTY, old(Value()).terminalInfo, old(from.Value()).terminalInfo),
                terminalCmdInfo := I.MergeMessage(C.Merge, C.EMPTY, old(Value()).terminalCmdInfo, old(from.Value()).terminalCmdInfo),
                baseStationInfo := I.MergeMessage(B.Merge, B.EMPTY, old(Value()).baseStationInfo, old(from.Value()).baseStationInfo),
                baseCmdInfo := I.MergeMessage(C.Merge, C.EMPTY, old(Value()).baseCmdInfo, old(from.Value()).baseCmdInfo))
    {
      hide Has, Valid, Value, Owned, I.MergeMessage, HeldTerminal, HeldCommand, HeldStation, TerminalValues,
        StationValues, TerminalInfo.Valid, CommandInfo.Valid, BaseStationInfo.Valid;
      from.ValueParts();
      from.ValidParts();
      from.OwnsParts();
      from.OwnsItself();
      OwnsItself();
      var cached := from.hasBits;
      TakeTerminalInfo(Has(cached, 0x02), from.terminalInfo);
      TakeTerminalCmdInfo(Has(cached, 0x04), from.terminalCmdInfo);
      TakeBaseStationInfo(Has(cached, 0x08), from.baseStationInfo);
      TakeBaseCmdInfo(Has(cached, 0x10), from.baseCmdInfo);
    }

    method MergeScalars(from: Interaction)
      requires Valid() && Owned() !! from.Owned()
      modifies this
      ensures Valid() && Owned() == old(Owned())
      ensures Value() == old(Value()).(
                msgId := Later(old(Value()).msgId, old(from.Value()).msgId),
                terminalCmdResult := Later(old(Value()).terminalCmdResult, old(from.Value()).terminalCmdResult),
                baseCmdResult := Later(old(Value()).baseCmdResult, old(from.Value()).baseCmdResult))
    {
      hide Has, Valid, Value, Owned, Held, HeldTerminal, HeldCommand, HeldStation, TerminalValues, StationValues,
        TerminalInfo.Valid, CommandInfo.Valid, BaseStationInfo.Valid;
      from.ValueParts();
      from.OwnsItself();
      OwnsItself();
      var cached := from.hasBits;
      TakeMsgId(Has(cached, 0x20), from.msgId);
      TakeTerminalCmdResult(Has(cached, 0x40), from.terminalCmdResult);
      TakeBaseCmdResult(Has(cached, 0x80), from.baseCmdResult);
    }

    /** The members that have presence bits. */
    method MergeGroup(from: Interaction)
      requires Valid() && from.Valid() && Owned() !! from.Owned()
      modifies Owned()
      ensures Valid() && forall o :: o in Owned() ==> o in old(Owned()) || fresh(o)
      ensures Value() == I.Merge(old(Value()), old(from.Value())).(
                terminalInfoList := old(Value()).terminalInfoList,
                baseStationInfoList := old(Value()).baseStationInfoList,
                unknown := old(Value()).unknown)
    {
      hide Has, Valid, Value, Owned, I.MergeMessage, HeldTerminal, HeldCommand, HeldStation, TerminalValues,
        StationValues, TerminalInfo.Valid, CommandInfo.Valid, BaseStationInfo.Valid;
      from.ValueParts();
      from.AbsentParts();
      from.OwnsItself();
      OwnsItself();
      GroupBits(from.hasBits, 255);
      var cached := from.hasBits;
      if Has(cached, 255) {
        TakeConfigFile(Has(cached, 0x01), from.configFile);
        MergeMessages(from);
        MergeScalars(from);
      } else {
        NothingToMerge(old(Value()), old(from.Value()));
      }
    }

    /** Lists and unknown fields are appended, scalars overwritten, submessages merged in turn. */
    method MergeFrom(from: Interaction)
      requires Valid() && from.Valid() && Owned() !! from.Owned()
      modifies Owned()
      ensures Valid() && forall o :: o in Owned() ==> o in old(Owned()) || fresh(o)
      ensures Value() == I.Merge(old(Value()), old(from.Value()))
    {
      hide Has, Valid, Value, Owned, Later, I.MergeMessage, HeldTerminal, HeldCommand, HeldStation, TerminalValues,
        StationValues, TerminalInfo.Valid, CommandInfo.Valid, BaseStationInfo.Valid;
      from.ValueParts();
      from.ValidParts();
      from.OwnsParts();
      from.OwnsItself();
      OwnsItself();
      TakeUnknown(from.unknown);
      AppendTerminals(from.terminalInfoList);
      AppendStations(from.baseStationInfoList);
      MergeGroup(from);
    }

    /** The target becomes a copy of the source whatever it held before. */
    method CopyFrom(from: Interaction)
      requires Valid() && from.Valid() && (from == this || Owned() !! from.Owned())
      modifies Owned()
      ensures Valid() && forall o :: o in Owned() ==> o in old(Owned()) || fresh(o)
      ensures Value() == old(from.Value())
    {
      hide Has, Valid, Value, Owned, I.Merge;
      OwnsItself();
      from.OwnsItself();
      if from == this {
        return;
      }
      Clear();
      MergeFrom(from);
      I.MergeIntoEmpty(old(from.Value()));
    }

    // ----- parsing -----

    /** A record with one of the submessage tags. */
    method MergeMessageField(number: nat, s: Bytes) returns (ok: bool)
      requires Valid()
      modifies Owned()
      ensures Valid() && forall o :: o in Owned() ==> o in old(Owned()) || fresh(o)
      ensures var r := I.AbsorbMessage(old(Value()), number, s); if ok then r == Some(Value()) else r.None?
    {
      hide Has, Valid, Value, Owned, ParseInto, T.Parse, B.Parse;
      OwnsItself();
      if number == 2 {
        ok := ParseTerminalInfo(s);
      } else if number == 3 {
        ok := ParseTerminalCmdInfo(s);
      } else if number == 5 {
        ok := ParseBaseStationInfo(s);
      } else if number == 6 {
        ok := ParseBaseCmdInfo(s);
      } else if number == 10 {
        ok := ParseTerminalElement(s);
      } else {
        ok := ParseStationElement(s);
      }
    }

    /** One turn of the parse loop on the input after the tag: the bytes it took, or failure. */
    method MergeField(tag: uint32, s: Bytes) returns (ok: bool, used: nat)
      requires Valid()
      modifies Owned()
      ensures Valid() && forall o :: o in Owned() ==> o in old(Owned()) || fresh(o)
      ensures match ReadPayload(tag % 8, s)
              case None => !ok
              case Some((p, n)) =>
                var r := I.Absorb(old(Value()), Field(tag / 8, p));
                if ok then used == n && r == Some(Value()) else r.None?
    {
      hide Has, Valid, Value, Owned, ReadVarint, ReadDelimited, I.AbsorbMessage;
      OwnsItself();
      ok, used := true, 0;
      if tag == 8 {
        match ReadVarint(s)
        case None => ok := false;
        case Some((v, n)) =>
          TakeMsgId(true, ToInt32(v));
          used := n;
      } else if tag == 18 || tag == 26 || tag == 42 || tag == 50 || tag == 82 || tag == 90 {
        match ReadDelimited(s)
        case None => ok := false;
        case Some((d, n)) =>
          ok := MergeMessageField(tag / 8, d);
          used := n;
      } else if tag == 32 {
        match ReadVarint(s)
        case None => ok := false;
        case Some((v, n)) =>
          TakeTerminalCmdResult(true, v != 0);
          used := n;
      } else if tag == 56 {
        match ReadVarint(s)
        case None => ok := false;
        case Some((v, n)) =>
          TakeBaseCmdResult(true, v != 0);
          used := n;
      } else if tag == 74 {
        match ReadDelimited(s)
        case None => ok := false;
        case Some((d, n)) =>
          TakeConfigFile(true, d);
          used := n;
      } else {
        match ReadPayload(tag % 8, s)
        case None => ok := false;
        case Some((p, n)) =>
          TakeUnknown([Field(tag / 8, p)]);
          used := n;
      }
    }

    /**
     Parses the input onto this message.  A zero or malformed tag stops the loop before the end
     of the input, which the caller takes for a failure like any other.
     */
    method MergePartialFromCodedStream(s: Bytes) returns (ok: bool)
      requires Valid()
      modifies Owned()
      ensures Valid() && forall o :: o in Owned() ==> o in old(Owned()) || fresh(o)
      ensures var r := ParseInto(I.Absorb, old(Value()), s); if ok then r == Some(Value()) else r.None?
    {
      hide Has, Valid, Value, Owned, ReadPayload, ReadVarint, ParseInto, I.Absorb;
      var rest := s;
      while rest != []
        invariant Valid() && forall o :: o in Owned() ==> o in old(Owned()) || fresh(o)
        invariant ParseInto(I.Absorb, Value(), rest) == ParseInto(I.Absorb, old(Value()), s)
        decreases |rest|
      {
        ParseStep(I.Absorb, Value(), rest);
        match ReadTag(rest)
        case None => return false;
        case Some((tag, n)) =>
          if tag / 8 == 0 {
            return false;
          }
          var done, used := MergeField(tag, rest[n..]);
          if !done {
            return false;
          }
          rest := rest[n + used..];
      }
      ParseEnd(I.Absorb, Value());
      return true;
    }

    /** `ParseFromString`: a fresh parse that must also find the required members. */
    method ParseFromString(s: Bytes) returns (ok: bool)
      requires Valid()
      modifies Owned()
      ensures Valid() && forall o :: o in Owned() ==> o in old(Owned()) || fresh(o)
      ensures ok <==> I.Parse(s).Some? && I.HasRequired(I.Parse(s).value)
      ensures ok <==> I.Parse(s).Some? && I.RequiredOnWire(s)
      ensures ok ==> Some(Value()) == I.Parse(s)
    {
      hide Has, Valid, Value, Owned, I.HasRequired, I.RequiredOnWire, ParseInto;
      Clear();
      ok := MergePartialFromCodedStream(s);
      OwnsItself();
      if ok {
        I.RequiredExactly(s);
        ok := IsInitialized();
      }
    }

    method IsInitialized() returns (ok: bool)
      requires Valid()
      ensures ok <==> I.HasRequired(Value())
    {
      hide Has, Valid, Value, TerminalValues, StationValues, TerminalInfo.Value, CommandInfo.Value,
        BaseStationInfo.Value, T.HasRequired, B.HasRequired, C.HasRequired;
      ghost var v := Value();
      OwnsItself();
      ValidParts();
      ValueParts();
      if !Has(hasBits, 0x20) {
        return false;
      }
      ok := AllTerminalsInitialized(terminalInfoList);
      assert Value() == v;
      if !ok { return; }
      ok := AllStationsInitialized(baseStationInfoList);
      assert Value() == v;
      if !ok { return; }
      if Has(hasBits, 0x02) {
        ok := terminalInfo.IsInitialized();
        assert Value() == v;
        if !ok { return; }
      }
      if Has(hasBits, 0x04) {
        ok := terminalCmdInfo.IsInitialized();
        assert Value() == v;
        if !ok { return; }
      }
      if Has(hasBits, 0x08) {
        ok := baseStationInfo.IsInitialized();
        assert Value() == v;
        if !ok { return; }
      }
      if Has(hasBits, 0x10) {
        ok := baseCmdInfo.IsInitialized();
        assert Value() == v;
        if !ok { return; }
      }
      return true;
    }

    // ----- printing -----

    lemma ScalarPieces()
      ensures EncodeFields(OptInt32(1, Value().msgId)) == WrittenIf(Has(hasBits, 0x20), WriteInt32(1, msgId))
      ensures EncodeFields(OptBool(4, Value().terminalCmdResult)) == WrittenIf(Has(hasBits, 0x40), WriteBool(4, terminalCmdResult))
      ensures EncodeFields(OptBool(7, Value().baseCmdResult)) == WrittenIf(Has(hasBits, 0x80), WriteBool(7, baseCmdResult))
      ensures EncodeFields(OptString(9, Value().configFile)) == WrittenIf(Has(hasBits, 0x01), WriteString(9, configFile))
      ensures |EncodeFields(OptInt32(1, Value().msgId))| == SizeIf(Has(hasBits, 0x20), 1 + Int32Size(msgId))
      ensures |EncodeFields(OptBool(4, Value().terminalCmdResult))| == SizeIf(Has(hasBits, 0x40), 1 + 1)
      ensures |EncodeFields(OptBool(7, Value().baseCmdResult))| == SizeIf(Has(hasBits, 0x80), 1 + 1)
      ensures |EncodeFields(OptString(9, Value().configFile))| == SizeIf(Has(hasBits, 0x01), 1 + DelimitedSize(|configFile|))
    {
      hide Has, Value, EncodeFields, WrittenIf, SizeIf, Int32Size, DelimitedSize, OptInt32, OptBool, OptString,
        WriteInt32, WriteBool, WriteString, Held;
      ValueParts();
      Int32Field(1, Has(hasBits, 0x20), msgId);
      BoolField(4, Has(hasBits, 0x40), terminalCmdResult);
      BoolField(7, Has(hasBits, 0x80), baseCmdResult);
      StringField(9, Has(hasBits, 0x01), configFile);
    }

    /** Fields 1 to 4. */
    method SerializeFirst() returns (output: Bytes)
      requires Valid()
      ensures output == [] + EncodeFields(OptInt32(1, Value().msgId)) + EncodeFields(I.OptTerminal(Value().terminalInfo))
                        + EncodeFields(I.OptCommand(3, Value().terminalCmdInfo))
                        + EncodeFields(OptBool(4, Value().terminalCmdResult))
    {
      hide Has, Valid, Value, EncodeFields, WrittenIf, WriteInt32, WriteBool, WriteString, I.Serialize, I.Terminals,
        I.Stations, I.OptTerminal, I.OptCommand, I.OptStation, TerminalValues, StationValues, HeldTerminal, HeldCommand, HeldStation;
      ghost var v := Value();
      OwnsItself();
      ValidParts();
      ValueParts();
      ScalarPieces();
      output := [] + WrittenIf(Has(hasBits, 0x20), WriteInt32(1, msgId));
      var piece := WriteTerminal(Has(hasBits, 0x02), terminalInfo);
      assert Value() == v;
      output := output + piece;
      piece := WriteCommand(3, Has(hasBits, 0x04), terminalCmdInfo);
      assert Value() == v;
      output := output + piece;
      output := output + WrittenIf(Has(hasBits, 0x40), WriteBool(4, terminalCmdResult));
    }

    /** Fields 5 to 9, after what is already there. */
    method SerializeSecond(before: Bytes) returns (output: Bytes)
      requires Valid()
      ensures output == before + EncodeFields(I.OptStation(Value().baseStationInfo))
                        + EncodeFields(I.OptCommand(6, Value().baseCmdInfo))
                        + EncodeFields(OptBool(7, Value().baseCmdResult)) + EncodeFields(OptString(9, Value().configFile))
    {
      hide Has, Valid, Value, EncodeFields, WrittenIf, WriteInt32, WriteBool, WriteString, I.Serialize, I.Terminals,
        I.Stations, I.OptTerminal, I.OptCommand, I.OptStation, TerminalValues, StationValues, HeldTerminal, HeldCommand, HeldStation;
      ghost var v := Value();
      OwnsItself();
      ValidParts();
      ValueParts();
      ScalarPieces();
      var piece := WriteStation(Has(hasBits, 0x08), baseStationInfo);
      assert Value() == v;
      output := before + piece;
      piece := WriteCommand(6, Has(hasBits, 0x10), baseCmdInfo);
      assert Value() == v;
      output := output + piece;
      output := output + WrittenIf(Has(hasBits, 0x80), WriteBool(7, baseCmdResult));
      output := output + WrittenIf(Has(hasBits, 0x01), WriteString(9, configFile));
    }

    method SerializeWithCachedSizes() returns (output: Bytes)
      requires Valid()
      ensures output == I.Serialize(Value())
    {
      hide Has, Valid, Value, EncodeFields, WrittenIf, WriteInt32, WriteBool, WriteString, I.Serialize, I.Terminals,
        I.Stations, I.OptTerminal, I.OptCommand, I.OptStation, TerminalValues, StationValues, HeldTerminal, HeldCommand, HeldStation;
      ghost var v := Value();
      OwnsItself();
      ValueParts();
      I.SerializePieces(Value());
      output := SerializeFirst();
      assert Value() == v;
      output := SerializeSecond(output);
      assert Value() == v;
      var piece := WriteTerminals(terminalInfoList);
      assert Value() == v;
      output := output + piece;
      piece := WriteStations(baseStationInfoList);
      assert Value() == v;
      output := output + piece;
      output := output + EncodeFields(unknown);
    }

    /** The members behind the mask 31. */
    method GroupedMembersByteSize() returns (total: nat)
      requires Valid()
      ensures total == |EncodeFields(OptString(9, Value().configFile))| + |EncodeFields(I.OptTerminal(Value().terminalInfo))|
                       + |EncodeFields(I.OptCommand(3, Value().terminalCmdInfo))|
                       + |EncodeFields(I.OptStation(Value().baseStationInfo))|
                       + |EncodeFields(I.OptCommand(6, Value().baseCmdInfo))|
    {
      hide Has, Valid, Value, EncodeFields, SizeIf, WrittenIf, WriteInt32, WriteBool, WriteString, I.Serialize, I.Terminals,
        I.Stations, I.OptTerminal, I.OptCommand, I.OptStation, TerminalValues, StationValues, HeldTerminal, HeldCommand, HeldStation, DelimitedSize;
      ghost var v := Value();
      OwnsItself();
      ValidParts();
      ValueParts();
      ScalarPieces();
      total := SizeIf(Has(hasBits, 0x01), 1 + DelimitedSize(|configFile|));
      var size := SizeTerminal(Has(hasBits, 0x02), terminalInfo);
      assert Value() == v;
      total := total + size;
      size := SizeCommand(3, Has(hasBits, 0x04), terminalCmdInfo);
      assert Value() == v;
      total := total + size;
      size := SizeStation(Has(hasBits, 0x08), baseStationInfo);
      assert Value() == v;
      total := total + size;
      size := SizeCommand(6, Has(hasBits, 0x10), baseCmdInfo);
      assert Value() == v;
      total := total + size;
    }

    method GroupedFieldsByteSize() returns (total: nat)
      requires Valid()
      ensures total == |EncodeFields(OptString(9, Value().configFile))| + |EncodeFields(I.OptTerminal(Value().terminalInfo))|
                       + |EncodeFields(I.OptCommand(3, Value().terminalCmdInfo))|
                       + |EncodeFields(I.OptStation(Value().baseStationInfo))|
                       + |EncodeFields(I.OptCommand(6, Value().baseCmdInfo))|
    {
      hide Has, Valid, Value, EncodeFields, WrittenIf, WriteInt32, WriteBool, WriteString, I.Serialize, I.Terminals,
        I.Stations, I.OptTerminal, I.OptCommand, I.OptStation, TerminalValues, StationValues, HeldTerminal, HeldCommand, HeldStation, DelimitedSize;
      total := 0;
      GroupBits(hasBits, 31);
      if Has(hasBits, 31) {
        total := GroupedMembersByteSize();
      } else {
        ValueParts();
        ScalarPieces();
        AbsentParts();
        AbsentPieces();
      }
    }

    /** The size computed over grouped masks is the length of what is printed. */
    method ByteSizeLong() returns (total: nat)
      requires Valid()
      ensures total == |I.Serialize(Value())|
    {
      hide Has, Valid, Value, EncodeFields, Int32Size, DelimitedSize, I.Serialize, I.Terminals,
        I.Stations, I.OptTerminal, I.OptCommand, I.OptStation, TerminalValues, StationValues, HeldTerminal, HeldCommand, HeldStation;
      ghost var v := Value();
      OwnsItself();
      ValueParts();
      ScalarPieces();
      I.SerializePieces(Value());
      GroupBits(hasBits, 192);
      total := |EncodeFields(unknown)|;
      total := total + SizeIf(Has(hasBits, 0x20), 1 + Int32Size(msgId));
      var size := SizeTerminals(terminalInfoList);
      assert Value() == v;
      total := total + size;
      size := SizeStations(baseStationInfoList);
      assert Value() == v;
      total := total + size;
      size := GroupedFieldsByteSize();
      assert Value() == v;
      total := total + size;
      if Has(hasBits, 192) {
        total := total + SizeIf(Has(hasBits, 0x40), 1 + 1);
        total := total + SizeIf(Has(hasBits, 0x80), 1 + 1);
      }
    }

    // ----- the other accessors -----

    method ClearMsgId()
      requires Valid()
      modifies this`hasBits, this`msgId
      ensures Valid() && Owned() == old(Owned())
      ensures Value() == old(Value()).(msgId := None)
    {
      hide Has, Without, OwnedBy, SoundTerminals, SoundStations, SoundTerminal, SoundCommand, SoundStation,
        HeldTerminal, HeldCommand, HeldStation, TerminalValues, StationValues;
      msgId := 0;
      assert Valid();
      WithoutBits(hasBits, 0x20);
      hasBits := Without(hasBits, 0x20);
    }

    method ClearTerminalCmdResult()
      requires Valid()
      modifies this`hasBits, this`terminalCmdResult
      ensures Valid() && Owned() == old(Owned())
      ensures Value() == old(Value()).(terminalCmdResult := None)
    {
      hide Has, Without, OwnedBy, SoundTerminals, SoundStations, SoundTerminal, SoundCommand, SoundStation,
        HeldTerminal, HeldCommand, HeldStation, TerminalValues, StationValues;
      terminalCmdResult := false;
      assert Valid();
      WithoutBits(hasBits, 0x40);
      hasBits := Without(hasBits, 0x40);
    }

    method ClearBaseCmdResult()
      requires Valid()
      modifies this`hasBits, this`baseCmdResult
      ensures Valid() && Owned() == old(Owned())
      ensures Value() == old(Value()).(baseCmdResult := None)
    {
      hide Has, Without, OwnedBy, SoundTerminals, SoundStations, SoundTerminal, SoundCommand, SoundStation,
        HeldTerminal, HeldCommand, HeldStation, TerminalValues, StationValues;
      baseCmdResult := false;
      assert Valid();
      WithoutBits(hasBits, 0x80);
      hasBits := Without(hasBits, 0x80);
    }

    method ClearConfigFile()
      requires Valid()
      modifies this`hasBits, this`configFile
      ensures Valid() && Owned() == old(Owned())
      ensures Value() == old(Value()).(configFile := None)
    {
      hide Has, Without, OwnedBy, SoundTerminals, SoundStations, SoundTerminal, SoundCommand, SoundStation,
        HeldTerminal, HeldCommand, HeldStation, TerminalValues, StationValues;
      configFile := [];
      assert Valid();
      WithoutBits(hasBits, 0x01);
      hasBits := Without(hasBits, 0x01);
    }

    /** `release_config_file`: gives the string away and leaves the empty one. */
    method ReleaseConfigFile() returns (x: Bytes)
      requires Valid()
      modifies this`hasBits, this`configFile
      ensures Valid() && Owned() == old(Owned()) && x == old(configFile)
      ensures Value() == old(Value()).(configFile := None)
    {
      hide Valid, Value, Owned, Has;
      x := configFile;
      ClearConfigFile();
    }

    /** `set_allocated_config_file`: takes over a string, or none. */
    method SetAllocatedConfigFile(x: Option<Bytes>)
      requires Valid()
      modifies this
      ensures Valid() && Owned() == old(Owned())
      ensures Value() == old(Value()).(configFile := x)
    {
      hide Valid, Value, Owned, Has;
      match x
      case Some(v) => TakeConfigFile(true, v);
      case None => ClearConfigFile();
    }

    method ClearTerminalInfoList()
      requires Valid()
      modifies this`terminalInfoList
      ensures Valid() && Owned() <= old(Owned()) && Value() == old(Value()).(terminalInfoList := [])
    {
      hide Has, OwnedBy, SoundStations, SoundTerminal, SoundCommand, SoundStation, HeldTerminal, HeldCommand,
        HeldStation, StationValues;
      OwnedWithoutTerminals(this, terminalInfoList, baseStationInfoList, terminalInfo, terminalCmdInfo, baseStationInfo, baseCmdInfo);
      terminalInfoList := [];
    }

    /** `add_`: a new empty element at the end. */
    method AddTerminalInfoList() returns (x: TerminalInfo)
      requires Valid()
      modifies this`terminalInfoList
      ensures Valid() && fresh(x) && x.Valid() && Owned() == old(Owned()) + {x}
      ensures terminalInfoList == old(terminalInfoList) + [x]
      ensures Value() == old(Value()).(terminalInfoList := old(Value()).terminalInfoList + [T.EMPTY])
    {
      hide Valid, Value, Owned, Has, TerminalInfo.Valid, TerminalInfo.Value, TerminalInfo.AllDefault;
      OwnsItself();
      x := new TerminalInfo();
      PushTerminal(x);
    }

    /** `mutable_(index)` */
    method MutableTerminalInfoList(index: nat) returns (x: TerminalInfo)
      requires Valid() && index < |terminalInfoList|
      ensures x == terminalInfoList[index] && x.Valid() && x in Owned()
      ensures Value().terminalInfoList[index] == x.Value()
    {
      hide Has, Valid, Value, Owned, TerminalInfo.Valid, TerminalInfo.Value, TerminalValues;
      ValidParts();
      ValueParts();
      OwnsParts();
      x := terminalInfoList[index];
    }

    /** Changing an element through its own methods changes that element and nothing else. */
    twostate lemma TerminalInfoElementChanged(index: nat)
      requires old(Valid()) && unchanged(this) && index < |terminalInfoList|
      requires unchanged(old(Owned()) - {this, terminalInfoList[index]}) && terminalInfoList[index].Valid()
      ensures Valid()
      ensures Value() == old(Value()).(terminalInfoList := old(Value()).terminalInfoList[index := terminalInfoList[index].Value()])
    {
      hide Has, SoundTerminal, SoundCommand, SoundStation, HeldTerminal, HeldCommand, HeldStation, SoundStations, StationValues,
        TerminalInfo.Valid, TerminalInfo.Value, BaseStationInfo.Valid, BaseStationInfo.Value;
      var x := terminalInfoList[index];
      assert forall j :: 0 <= j < |terminalInfoList| && j != index ==> terminalInfoList[j] != x && unchanged(terminalInfoList[j]);
    }

    method ClearBaseStationInfoList()
      requires Valid()
      modifies this`baseStationInfoList
      ensures Valid() && Owned() <= old(Owned()) && Value() == old(Value()).(baseStationInfoList := [])
    {
      hide Has, OwnedBy, SoundTerminals, SoundTerminal, SoundCommand, SoundStation, HeldTerminal, HeldCommand,
        HeldStation, TerminalValues;
      OwnedWithoutStations(this, terminalInfoList, baseStationInfoList, terminalInfo, terminalCmdInfo, baseStationInfo, baseCmdInfo);
      baseStationInfoList := [];
    }

    /** `add_`: a new empty element at the end. */
    method AddBaseStationInfoList() returns (x: BaseStationInfo)
      requires Valid()
      modifies this`baseStationInfoList
      ensures Valid() && fresh(x) && x.Valid() && Owned() == old(Owned()) + {x}
      ensures baseStationInfoList == old(baseStationInfoList) + [x]
      ensures Value() == old(Value()).(baseStationInfoList := old(Value()).baseStationInfoList + [B.EMPTY])
    {
      hide Valid, Value, Owned, Has, BaseStationInfo.Valid, BaseStationInfo.Value, BaseStationInfo.AllDefault;
      OwnsItself();
      x := new BaseStationInfo();
      PushStation(x);
    }

    /** `mutable_(index)` */
    method MutableBaseStationInfoList(index: nat) returns (x: BaseStationInfo)
      requires Valid() && index < |baseStationInfoList|
      ensures x == baseStationInfoList[index] && x.Valid() && x in Owned()
      ensures Value().baseStationInfoList[index] == x.Value()
    {
      hide Has, Valid, Value, Owned, BaseStationInfo.Valid, BaseStationInfo.Value, StationValues;
      ValidParts();
      ValueParts();
      OwnsParts();
      x := baseStationInfoList[index];
    }

    /** Changing an element through its own methods changes that element and nothing else. */
    twostate lemma BaseStationInfoElementChanged(index: nat)
      requires old(Valid()) && unchanged(this) && index < |baseStationInfoList|
      requires unchanged(old(Owned()) - {this, baseStationInfoList[index]}) && baseStationInfoList[index].Valid()
      ensures Valid()
      ensures Value() == old(Value()).(baseStationInfoList := old(Value()).baseStationInfoList[index := baseStationInfoList[index].Value()])
    {
      hide Has, SoundTerminal, SoundCommand, SoundStation, HeldTerminal, HeldCommand, HeldStation, SoundTerminals, TerminalValues,
        TerminalInfo.Valid, TerminalInfo.Value, BaseStationInfo.Valid, BaseStationInfo.Value;
      var x := baseStationInfoList[index];
      assert forall j :: 0 <= j < |baseStationInfoList| && j != index ==> baseStationInfoList[j] != x && unchanged(baseStationInfoList[j]);
    }

    /** `release_`: gives the submessage away and forgets it. */
    method ReleaseTerminalInfo() returns (x: TerminalInfo?)
      requires Valid()
      modifies this`hasBits, this`terminalInfo
      ensures Valid() && x == old(terminalInfo) && terminalInfo == null
      ensures Owned() <= old(Owned()) && (x != null ==> x !in Owned())
      ensures Value() == old(Value()).(terminalInfo := None)
    {
      hide Has, Without, OwnedBy, SoundTerminals, SoundStations, SoundCommand, SoundStation, HeldCommand, HeldStation,
        TerminalValues, StationValues, TerminalInfo.Valid, TerminalInfo.Value, TerminalInfo.AllDefault;
      OwnedParts(this, terminalInfoList, baseStationInfoList, terminalInfo, terminalCmdInfo, baseStationInfo, baseCmdInfo);
      OwnedRest();
      WithoutBits(hasBits, 0x02);
      hasBits := Without(hasBits, 0x02);
      x := terminalInfo;
      terminalInfo := null;
    }

    method AttachTerminalInfo(x: TerminalInfo)
      requires Valid() && terminalInfo == null && x.Valid() && x !in Owned()
      modifies this`hasBits, this`terminalInfo
      ensures Valid() && terminalInfo == x && Owned() == old(Owned()) + {x}
      ensures Value() == old(Value()).(terminalInfo := Some(x.Value()))
    {
      hide Has, With, OwnedBy, SoundTerminals, SoundStations, SoundCommand, SoundStation, HeldCommand, HeldStation,
        TerminalValues, StationValues, TerminalInfo.Valid, TerminalInfo.Value, TerminalInfo.AllDefault;
      OwnedParts(this, terminalInfoList, baseStationInfoList, terminalInfo, terminalCmdInfo, baseStationInfo, baseCmdInfo);
      WithBits(hasBits, 0x02);
      hasBits := With(hasBits, 0x02);
      terminalInfo := x;
      OwnedParts(this, terminalInfoList, baseStationInfoList, terminalInfo, terminalCmdInfo, baseStationInfo, baseCmdInfo);
    }

    /** `set_allocated_`: drops the submessage there and takes over another, or none. */
    method SetAllocatedTerminalInfo(x: TerminalInfo?)
      requires Valid() && (x != null ==> x.Valid() && x !in Owned())
      modifies this`hasBits, this`terminalInfo
      ensures Valid() && terminalInfo == x
      ensures Value() == old(Value()).(terminalInfo := if x == null then None else Some(x.Value()))
    {
      hide Has, Valid, Value, Owned, TerminalInfo.Valid, TerminalInfo.Value;
      var dropped := ReleaseTerminalInfo();
      if x != null {
        AttachTerminalInfo(x);
      }
    }

    method WipeTerminalInfo()
      requires Valid()
      modifies terminalInfo
      ensures Valid() && SoundTerminal(false, terminalInfo)
      ensures Value().(terminalInfo := None) == old(Value()).(terminalInfo := None)
    {
      hide Has, Without, OwnedBy, SoundTerminals, SoundStations, SoundTerminal, SoundCommand, SoundStation,
        HeldTerminal, HeldCommand, HeldStation, TerminalValues, StationValues;
      OwnedParts(this, terminalInfoList, baseStationInfoList, terminalInfo, terminalCmdInfo, baseStationInfo, baseCmdInfo);
      WipeTerminal(Has(hasBits, 0x02), terminalInfo);
    }

    method UnmarkTerminalInfo()
      requires Valid() && SoundTerminal(false, terminalInfo)
      modifies this`hasBits
      ensures Valid() && Value() == old(Value()).(terminalInfo := None)
    {
      hide Has, Without, OwnedBy, SoundTerminals, SoundStations, SoundTerminal, SoundCommand, SoundStation,
        HeldTerminal, HeldCommand, HeldStation, TerminalValues, StationValues;
      WithoutBits(hasBits, 0x02);
      hasBits := Without(hasBits, 0x02);
      AbsentParts();
    }

    /** `clear_`: a submessage that is there is cleared and kept. */
    method ClearTerminalInfo()
      requires Valid()
      modifies this`hasBits, terminalInfo
      ensures Valid() && Owned() == old(Owned()) && Value() == old(Value()).(terminalInfo := None)
    {
      hide Has, Valid, Value, OwnedBy, SoundTerminal;
      OwnsItself();
      OwnsParts();
      WipeTerminalInfo();
      UnmarkTerminalInfo();
    }

    /** `release_`: gives the submessage away and forgets it. */
    method ReleaseTerminalCmdInfo() returns (x: CommandInfo?)
      requires Valid()
      modifies this`hasBits, this`terminalCmdInfo
      ensures Valid() && x == old(terminalCmdInfo) && terminalCmdInfo == null
      ensures Owned() <= old(Owned()) && (x != null ==> x !in Owned())
      ensures Value() == old(Value()).(terminalCmdInfo := None)
    {
      hide Has, Without, OwnedBy, SoundTerminals, SoundStations, SoundTerminal, SoundStation, HeldTerminal,
        HeldStation, TerminalValues, StationValues, CommandInfo.Valid, CommandInfo.Value, CommandInfo.AllDefault;
      OwnedParts(this, terminalInfoList, baseStationInfoList, terminalInfo, terminalCmdInfo, baseStationInfo, baseCmdInfo);
      OwnedRest();
      WithoutBits(hasBits, 0x04);
      hasBits := Without(hasBits, 0x04);
      x := terminalCmdInfo;
      terminalCmdInfo := null;
    }

    method AttachTerminalCmdInfo(x: CommandInfo)
      requires Valid() && terminalCmdInfo == null && x.Valid() && x !in Owned() && !x.base
      modifies this`hasBits, this`terminalCmdInfo
      ensures Valid() && terminalCmdInfo == x && Owned() == old(Owned()) + {x}
      ensures Value() == old(Value()).(terminalCmdInfo := Some(x.Value()))
    {
      hide Has, With, OwnedBy, SoundTerminals, SoundStations, SoundTerminal, SoundStation, HeldTerminal, HeldStation,
        TerminalValues, StationValues, CommandInfo.Valid, CommandInfo.Value, CommandInfo.AllDefault;
      OwnedParts(this, terminalInfoList, baseStationInfoList, terminalInfo, terminalCmdInfo, baseStationInfo, baseCmdInfo);
      WithBits(hasBits, 0x04);
      hasBits := With(hasBits, 0x04);
      terminalCmdInfo := x;
      OwnedParts(this, terminalInfoList, baseStationInfoList, terminalInfo, terminalCmdInfo, baseStationInfo, baseCmdInfo);
    }

    /** `set_allocated_`: drops the submessage there and takes over another, or none. */
    method SetAllocatedTerminalCmdInfo(x: CommandInfo?)
      requires Valid() && (x != null ==> x.Valid() && x !in Owned() && !x.base)
      modifies this`hasBits, this`terminalCmdInfo
      ensures Valid() && terminalCmdInfo == x
      ensures Value() == old(Value()).(terminalCmdInfo := if x == null then None else Some(x.Value()))
    {
      hide Has, Valid, Value, Owned, CommandInfo.Valid, CommandInfo.Value;
      var dropped := ReleaseTerminalCmdInfo();
      if x != null {
        AttachTerminalCmdInfo(x);
      }
    }

    method WipeTerminalCmdInfo()
      requires Valid()
      modifies terminalCmdInfo
      ensures Valid() && SoundCommand(false, false, terminalCmdInfo)
      ensures Value().(terminalCmdInfo := None) == old(Value()).(terminalCmdInfo := None)
    {
      hide Has, Without, OwnedBy, SoundTerminals, SoundStations, SoundTerminal, SoundCommand, SoundStation,
        HeldTerminal, HeldCommand, HeldStation, TerminalValues, StationValues;
      OwnedParts(this, terminalInfoList, baseStationInfoList, terminalInfo, terminalCmdInfo, baseStationInfo, baseCmdInfo);
      WipeCommand(false, Has(hasBits, 0x04), terminalCmdInfo);
    }

    method UnmarkTerminalCmdInfo()
      requires Valid() && SoundCommand(false, false, terminalCmdInfo)
      modifies this`hasBits
      ensures Valid() && Value() == old(Value()).(terminalCmdInfo := None)
    {
      hide Has, Without, OwnedBy, SoundTerminals, SoundStations, SoundTerminal, SoundCommand, SoundStation,
        HeldTerminal, HeldCommand, HeldStation, TerminalValues, StationValues;
      WithoutBits(hasBits, 0x04);
      hasBits := Without(hasBits, 0x04);
      AbsentParts();
    }

    /** `clear_`: a submessage that is there is cleared and kept. */
    method ClearTerminalCmdInfo()
      requires Valid()
      modifies this`hasBits, terminalCmdInfo
      ensures Valid() && Owned() == old(Owned()) && Value() == old(Value()).(terminalCmdInfo := None)
    {
      hide Has, Valid, Value, OwnedBy, SoundCommand;
      OwnsItself();
      OwnsParts();
      WipeTerminalCmdInfo();
      UnmarkTerminalCmdInfo();
    }

    /** `release_`: gives the submessage away and forgets it. */
    method ReleaseBaseStationInfo() returns (x: BaseStationInfo?)
      requires Valid()
      modifies this`hasBits, this`baseStationInfo
      ensures Valid() && x == old(baseStationInfo) && baseStationInfo == null
      ensures Owned() <= old(Owned()) && (x != null ==> x !in Owned())
      ensures Value() == old(Value()).(baseStationInfo := None)
    {
      hide Has, Without, OwnedBy, SoundTerminals, SoundStations, SoundTerminal, SoundCommand, HeldTerminal,
        HeldCommand, TerminalValues, StationValues, BaseStationInfo.Valid, BaseStationInfo.Value,
        BaseStationInfo.AllDefault;
      OwnedParts(this, terminalInfoList, baseStationInfoList, terminalInfo, terminalCmdInfo, baseStationInfo, baseCmdInfo);
      OwnedRest();
      WithoutBits(hasBits, 0x08);
      hasBits := Without(hasBits, 0x08);
      x := baseStationInfo;
      baseStationInfo := null;
    }

    method AttachBaseStationInfo(x: BaseStationInfo)
      requires Valid() && baseStationInfo == null && x.Valid() && x !in Owned()
      modifies this`hasBits, this`baseStationInfo
      ensures Valid() && baseStationInfo == x && Owned() == old(Owned()) + {x}
      ensures Value() == old(Value()).(baseStationInfo := Some(x.Value()))
    {
      hide Has, With, OwnedBy, SoundTerminals, SoundStations, SoundTerminal, SoundCommand, HeldTerminal, HeldCommand,
        TerminalValues, StationValues, BaseStationInfo.Valid, BaseStationInfo.Value, BaseStationInfo.AllDefault;
      OwnedParts(this, terminalInfoList, baseStationInfoList, terminalInfo, terminalCmdInfo, baseStationInfo, baseCmdInfo);
      WithBits(hasBits, 0x08);
      hasBits := With(hasBits, 0x08);
      baseStationInfo := x;
      OwnedParts(this, terminalInfoList, baseStationInfoList, terminalInfo, terminalCmdInfo, baseStationInfo, baseCmdInfo);
    }

    /** `set_allocated_`: drops the submessage there and takes over another, or none. */
    method SetAllocatedBaseStationInfo(x: BaseStationInfo?)
      requires Valid() && (x != null ==> x.Valid() && x !in Owned())
      modifies this`hasBits, this`baseStationInfo
      ensures Valid() && baseStationInfo == x
      ensures Value() == old(Value()).(baseStationInfo := if x == null then None else Some(x.Value()))
    {
      hide Has, Valid, Value, Owned, BaseStationInfo.Valid, BaseStationInfo.Value;
      var dropped := ReleaseBaseStationInfo();
      if x != null {
        AttachBaseStationInfo(x);
      }
    }

    method WipeBaseStationInfo()
      requires Valid()
      modifies baseStationInfo
      ensures Valid() && SoundStation(false, baseStationInfo)
      ensures Value().(baseStationInfo := None) == old(Value()).(baseStationInfo := None)
    {
      hide Has, Without, OwnedBy, SoundTerminals, SoundStations, SoundTerminal, SoundCommand, SoundStation,
        HeldTerminal, HeldCommand, HeldStation, TerminalValues, StationValues;
      OwnedParts(this, terminalInfoList, baseStationInfoList, terminalInfo, terminalCmdInfo, baseStationInfo, baseCmdInfo);
      WipeStation(Has(hasBits, 0x08), baseStationInfo);
    }

    method UnmarkBaseStationInfo()
      requires Valid() && SoundStation(false, baseStationInfo)
      modifies this`hasBits
      ensures Valid() && Value() == old(Value()).(baseStationInfo := None)
    {
      hide Has, Without, OwnedBy, SoundTerminals, SoundStations, SoundTerminal, SoundCommand, SoundStation,
        HeldTerminal, HeldCommand, HeldStation, TerminalValues, StationValues;
      WithoutBits(hasBits, 0x08);
      hasBits := Without(hasBits, 0x08);
      AbsentParts();
    }

    /** `clear_`: a submessage that is there is cleared and kept. */
    method ClearBaseStationInfo()
      requires Valid()
      modifies this`hasBits, baseStationInfo
      ensures Valid() && Owned() == old(Owned()) && Value() == old(Value()).(baseStationInfo := None)
    {
      hide Has, Valid, Value, OwnedBy, SoundStation;
      OwnsItself();
      OwnsParts();
      WipeBaseStationInfo();
      UnmarkBaseStationInfo();
    }

    /** `release_`: gives the submessage away and forgets it. */
    method ReleaseBaseCmdInfo() returns (x: CommandInfo?)
      requires Valid()
      modifies this`hasBits, this`baseCmdInfo
      ensures Valid() && x == old(baseCmdInfo) && baseCmdInfo == null
      ensures Owned() <= old(Owned()) && (x != null ==> x !in Owned())
      ensures Value() == old(Value()).(baseCmdInfo := None)
    {
      hide Has, Without, OwnedBy, SoundTerminals, SoundStations, SoundTerminal, SoundStation, HeldTerminal,
        HeldStation, TerminalValues, StationValues, CommandInfo.Valid, CommandInfo.Value, CommandInfo.AllDefault;
      OwnedParts(this, terminalInfoList, baseStationInfoList, terminalInfo, terminalCmdInfo, baseStationInfo, baseCmdInfo);
      OwnedRest();
      WithoutBits(hasBits, 0x10);
      hasBits := Without(hasBits, 0x10);
      x := baseCmdInfo;
      baseCmdInfo := null;
    }

    method AttachBaseCmdInfo(x: CommandInfo)
      requires Valid() && baseCmdInfo == null && x.Valid() && x !in Owned() && x.base
      modifies this`hasBits, this`baseCmdInfo
      ensures Valid() && baseCmdInfo == x && Owned() == old(Owned()) + {x}
      ensures Value() == old(Value()).(baseCmdInfo := Some(x.Value()))
    {
      hide Has, With, OwnedBy, SoundTerminals, SoundStations, SoundTerminal, SoundStation, HeldTerminal, HeldStation,
        TerminalValues, StationValues, CommandInfo.Valid, CommandInfo.Value, CommandInfo.AllDefault;
      OwnedParts(this, terminalInfoList, baseStationInfoList, terminalInfo, terminalCmdInfo, baseStationInfo, baseCmdInfo);
      WithBits(hasBits, 0x10);
      hasBits := With(hasBits, 0x10);
      baseCmdInfo := x;
      OwnedParts(this, terminalInfoList, baseStationInfoList, terminalInfo, terminalCmdInfo, baseStationInfo, baseCmdInfo);
    }

    /** `set_allocated_`: drops the submessage there and takes over another, or none. */
    method SetAllocatedBaseCmdInfo(x: CommandInfo?)
      requires Valid() && (x != null ==> x.Valid() && x !in Owned() && x.base)
      modifies this`hasBits, this`baseCmdInfo
      ensures Valid() && baseCmdInfo == x
      ensures Value() == old(Value()).(baseCmdInfo := if x == null then None else Some(x.Value()))
    {
      hide Has, Valid, Value, Owned, CommandInfo.Valid, CommandInfo.Value;
      var dropped := ReleaseBaseCmdInfo();
      if x != null {
        AttachBaseCmdInfo(x);
      }
    }

    method WipeBaseCmdInfo()
      requires Valid()
      modifies baseCmdInfo
      ensures Valid() && SoundCommand(true, false, baseCmdInfo)
      ensures Value().(baseCmdInfo := None) == old(Value()).(baseCmdInfo := None)
    {
      hide Has, Without, OwnedBy, SoundTerminals, SoundStations, SoundTerminal, SoundCommand, SoundStation,
        HeldTerminal, HeldCommand, HeldStation, TerminalValues, StationValues;
      OwnedParts(this, terminalInfoList, baseStationInfoList, terminalInfo, terminalCmdInfo, baseStationInfo, baseCmdInfo);
      WipeCommand(true, Has(hasBits, 0x10), baseCmdInfo);
    }

    method UnmarkBaseCmdInfo()
      requires Valid() && SoundCommand(true, false, baseCmdInfo)
      modifies this`hasBits
      ensures Valid() && Value() == old(Value()).(baseCmdInfo := None)
    {
      hide Has, Without, OwnedBy, SoundTerminals, SoundStations, SoundTerminal, SoundCommand, SoundStation,
        HeldTerminal, HeldCommand, HeldStation, TerminalValues, StationValues;
      WithoutBits(hasBits, 0x10);
      hasBits := Without(hasBits, 0x10);
      AbsentParts();
    }

    /** `clear_`: a submessage that is there is cleared and kept. */
    method ClearBaseCmdInfo()
      requires Valid()
      modifies this`hasBits, baseCmdInfo
      ensures Valid() && Owned() == old(Owned()) && Value() == old(Value()).(baseCmdInfo := None)
    {
      hide Has, Valid, Value, OwnedBy, SoundCommand;
      OwnsItself();
      OwnsParts();
      WipeBaseCmdInfo();
      UnmarkBaseCmdInfo();
    }
  }
}
