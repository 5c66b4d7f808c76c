/** `interaction.TerminalInfo` as generated: presence bits and members updated in place. */
module TerminalInfo {
  import opened Wrappers
  import opened Machine
  import opened WireFormat
  import opened FieldFold
  import opened PresenceBits
  import opened FieldWriters

  import T = TerminalInfoSpec

  class TerminalInfo {
    var hasBits: bv32
    var hostname: Bytes
    var macAddr: Bytes
    var ipAddr: Bytes
    var sensorChannel: Bytes
    var sensorHeight: Bytes
    var sensorOffset: Bytes
    var romoteIpAddr: Bytes
    var termConfig: Bytes
    var calibrationStatus: bool
    var unknown: seq<Field>

    /** A member whose presence bit is off holds its default. */
    ghost predicate Valid()
      reads this
    {
      && (!Has(hasBits, 0x001) ==> hostname == [])
      && (!Has(hasBits, 0x002) ==> macAddr == [])
      && (!Has(hasBits, 0x004) ==> ipAddr == [])
      && (!Has(hasBits, 0x008) ==> sensorChannel == [])
      && (!Has(hasBits, 0x010) ==> sensorHeight == [])
      && (!Has(hasBits, 0x020) ==> sensorOffset == [])
      && (!Has(hasBits, 0x040) ==> romoteIpAddr == [])
      && (!Has(hasBits, 0x080) ==> termConfig == [])
      && (!Has(hasBits, 0x100) ==> !calibrationStatus)
    }

    ghost function Value(): T.Terminal
      reads this
    {
      T.Terminal(
        Held(Has(hasBits, 0x001), hostname),
        Held(Has(hasBits, 0x002), macAddr),
        Held(Has(hasBits, 0x004), ipAddr),
        Held(Has(hasBits, 0x008), sensorChannel),
        Held(Has(hasBits, 0x010), sensorHeight),
        Held(Has(hasBits, 0x020), sensorOffset),
        Held(Has(hasBits, 0x040), romoteIpAddr),
        Held(Has(hasBits, 0x100), calibrationStatus),
        Held(Has(hasBits, 0x080), termConfig),
        unknown)
    }

    lemma ValueParts()
      ensures Value().unknown == unknown
      ensures Value().hostname == Held(Has(hasBits, 0x001), hostname)
      ensures Value().macAddr == Held(Has(hasBits, 0x002), macAddr)
      ensures Value().ipAddr == Held(Has(hasBits, 0x004), ipAddr)
      ensures Value().sensorChannel == Held(Has(hasBits, 0x008), sensorChannel)
      ensures Value().sensorHeight == Held(Has(hasBits, 0x010), sensorHeight)
      ensures Value().sensorOffset == Held(Has(hasBits, 0x020), sensorOffset)
      ensures Value().romoteIpAddr == Held(Has(hasBits, 0x040), romoteIpAddr)
      ensures Value().calibrationStatus == Held(Has(hasBits, 0x100), calibrationStatus)
      ensures Value().termConfig == Held(Has(hasBits, 0x080), termConfig)
    {
      hide Has;
    }

    /** Every member, present or not, is as in a newly made object. */
    ghost predicate AllDefault()
      reads this
    {
      && hasBits == 0 && unknown == []
      && hostname == []
      && macAddr == []
      && ipAddr == []
      && sensorChannel == []
      && sensorHeight == []
      && sensorOffset == []
      && romoteIpAddr == []
      && termConfig == []
      && !calibrationStatus
    }

    lemma DefaultIsEmpty()
      requires AllDefault()
      ensures Value() == T.EMPTY
    {
    }

    constructor ()
      ensures Valid() && AllDefault() && Value() == T.EMPTY
    {
      hasBits, unknown := 0, [];
      hostname, macAddr, ipAddr, sensorChannel, sensorHeight, sensorOffset, romoteIpAddr, termConfig := [], [], [], [], [], [], [], [];
      calibrationStatus := false;
    }

    method TakeHostname(present: bool, v: Bytes)
      requires Valid()
      modifies this
      ensures Valid() && Value() == old(Value()).(hostname := Later(old(Value()).hostname, Held(present, v)))
    {
      hide Has, With;
      if present {
        WithBits(hasBits, 0x001);
        hasBits := With(hasBits, 0x001);
        hostname := v;
      }
    }

    method TakeMacAddr(present: bool, v: Bytes)
      requires Valid()
      modifies this
      ensures Valid() && Value() == old(Value()).(macAddr := Later(old(Value()).macAddr, Held(present, v)))
    {
      hide Has, With;
      if present {
        WithBits(hasBits, 0x002);
        hasBits := With(hasBits, 0x002);
        macAddr := v;
      }
    }

    method TakeIpAddr(present: bool, v: Bytes)
      requires Valid()
      modifies this
      ensures Valid() && Value() == old(Value()).(ipAddr := Later(old(Value()).ipAddr, Held(present, v)))
    {
      hide Has, With;
      if present {
        WithBits(hasBits, 0x004);
        hasBits := With(hasBits, 0x004);
        ipAddr := v;
      }
    }

    method TakeSensorChannel(present: bool, v: Bytes)
      requires Valid()
      modifies this
      ensures Valid() && Value() == old(Value()).(sensorChannel := Later(old(Value()).sensorChannel, Held(present, v)))
    {
      hide Has, With;
      if present {
        WithBits(hasBits, 0x008);
        hasBits := With(hasBits, 0x008);
        sensorChannel := v;
      }
    }

    method TakeSensorHeight(present: bool, v: Bytes)
      requires Valid()
      modifies this
      ensures Valid() && Value() == old(Value()).(sensorHeight := Later(old(Value()).sensorHeight, Held(present, v)))
    {
      hide Has, With;
      if present {
        WithBits(hasBits, 0x010);
        hasBits := With(hasBits, 0x010);
        sensorHeight := v;
      }
    }

    method TakeSensorOffset(present: bool, v: Bytes)
      requires Valid()
      modifies this
      ensures Valid() && Value() == old(Value()).(sensorOffset := Later(old(Value()).sensorOffset, Held(present, v)))
    {
      hide Has, With;
      if present {
        WithBits(hasBits, 0x020);
        hasBits := With(hasBits, 0x020);
        sensorOffset := v;
      }
    }

    method TakeRomoteIpAddr(present: bool, v: Bytes)
      requires Valid()
      modifies this
      ensures Valid() && Value() == old(Value()).(romoteIpAddr := Later(old(Value()).romoteIpAddr, Held(present, v)))
    {
      hide Has, With;
      if present {
        WithBits(hasBits, 0x040);
        hasBits := With(hasBits, 0x040);
        romoteIpAddr := v;
      }
    }

    method TakeCalibrationStatus(present: bool, v: bool)
      requires Valid()
      modifies this
      ensures Valid() && Value() == old(Value()).(calibrationStatus := Later(old(Value()).calibrationStatus, Held(present, v)))
    {
      hide Has, With;
      if present {
        WithBits(hasBits, 0x100);
        hasBits := With(hasBits, 0x100);
        calibrationStatus := v;
      }
    }

    method TakeTermConfig(present: bool, v: Bytes)
      requires Valid()
      modifies this
      ensures Valid() && Value() == old(Value()).(termConfig := Later(old(Value()).termConfig, Held(present, v)))
    {
      hide Has, With;
      if present {
        WithBits(hasBits, 0x080);
        hasBits := With(hasBits, 0x080);
        termConfig := v;
      }
    }

    method TakeUnknown(fs: seq<Field>)
      requires Valid()
      modifies this
      ensures Valid() && Value() == old(Value()).(unknown := old(Value()).unknown + fs)
    {
      unknown := unknown + fs;
    }

    /** The mask-guarded reset leaves nothing behind. */
    method Clear()
      requires Valid()
      modifies this
      ensures Valid() && AllDefault() && Value() == T.EMPTY
    {
      hide Has;
      GroupBits(hasBits, 255);
      if Has(hasBits, 255) {
        hostname := Cleared(Has(hasBits, 0x001), hostname);
        macAddr := Cleared(Has(hasBits, 0x002), macAddr);
        ipAddr := Cleared(Has(hasBits, 0x004), ipAddr);
        sensorChannel := Cleared(Has(hasBits, 0x008), sensorChannel);
        sensorHeight := Cleared(Has(hasBits, 0x010), sensorHeight);
        sensorOffset := Cleared(Has(hasBits, 0x020), sensorOffset);
        romoteIpAddr := Cleared(Has(hasBits, 0x040), romoteIpAddr);
        termConfig := Cleared(Has(hasBits, 0x080), termConfig);
      }
      calibrationStatus := false;
      hasBits := 0;
      unknown := [];
      NoBits();
    }

    method MergeFrom(from: TerminalInfo)
      requires Valid() && from.Valid() && from != this
      modifies this
      ensures Valid() && Value() == T.Merge(old(Value()), old(from.Value()))
    {
      hide Has, Valid, Value;
      var cached := from.hasBits;
      from.ValueParts();
      GroupBits(cached, 255);
      TakeUnknown(from.unknown);
      if Has(cached, 255) {
        TakeHostname(Has(cached, 0x001), from.hostname);
        TakeMacAddr(Has(cached, 0x002), from.macAddr);
        TakeIpAddr(Has(cached, 0x004), from.ipAddr);
        TakeSensorChannel(Has(cached, 0x008), from.sensorChannel);
        TakeSensorHeight(Has(cached, 0x010), from.sensorHeight);
        TakeSensorOffset(Has(cached, 0x020), from.sensorOffset);
        TakeRomoteIpAddr(Has(cached, 0x040), from.romoteIpAddr);
        TakeTermConfig(Has(cached, 0x080), from.termConfig);
      }
      TakeCalibrationStatus(Has(cached, 0x100), from.calibrationStatus);
    }

    /** The target becomes a copy of the source whatever it held before. */
    method CopyFrom(from: TerminalInfo)
      requires Valid() && from.Valid()
      modifies this
      ensures Valid() && Value() == old(from.Value())
    {
      hide Valid, Value, AllDefault, T.Merge;
      if from == this {
        return;
      }
      Clear();
      MergeFrom(from);
      T.MergeIntoEmpty(from.Value());
    }

    method IsInitialized() returns (ok: bool)
      ensures ok <==> T.HasRequired(Value())
    {
      if hasBits & 0x007 != 0x007 {
        return false;
      }
      return true;
    }

    /** One turn of the parse loop on the input after the tag: the bytes it took, or failure. */
    method MergeField(tag: uint32, s: Bytes) returns (ok: bool, used: nat)
      requires Valid()
      modifies this
      ensures Valid()
      ensures ok <==> ReadPayload(tag % 8, s).Some?
      ensures ok ==>
                var (p, n) := ReadPayload(tag % 8, s).value;
                used == n && T.Absorb(old(Value()), Field(tag / 8, p)) == Some(Value())
    {
      hide Valid, Value, ReadVarint, ReadDelimited;
      ok, used := true, 0;
      if tag == 10 {
        match ReadDelimited(s)
        case None => ok := false;
        case Some((d, n)) =>
          TakeHostname(true, d);
          used := n;
      } else if tag == 18 {
        match ReadDelimited(s)
        case None => ok := false;
        case Some((d, n)) =>
          TakeMacAddr(true, d);
          used := n;
      } else if tag == 26 {
        match ReadDelimited(s)
        case None => ok := false;
        case Some((d, n)) =>
          TakeIpAddr(true, d);
          used := n;
      } else if tag == 34 {
        match ReadDelimited(s)
        case None => ok := false;
        case Some((d, n)) =>
          TakeSensorChannel(true, d);
          used := n;
      } else if tag == 42 {
        match ReadDelimited(s)
        case None => ok := false;
        case Some((d, n)) =>
          TakeSensorHeight(true, d);
          used := n;
      } else if tag == 50 {
        match ReadDelimited(s)
        case None => ok := false;
        case Some((d, n)) =>
          TakeSensorOffset(true, d);
          used := n;
      } else if tag == 58 {
        match ReadDelimited(s)
        case None => ok := false;
        case Some((d, n)) =>
          TakeRomoteIpAddr(true, d);
          used := n;
      } else if tag == 64 {
        match ReadVarint(s)
        case None => ok := false;
        case Some((v, n)) =>
          TakeCalibrationStatus(true, v != 0);
          used := n;
      } else if tag == 74 {
        match ReadDelimited(s)
        case None => ok := false;
        case Some((d, n)) =>
          TakeTermConfig(true, d);
          used := n;
      } else {
        match ReadPayload(tag % 8, s)
        case None => ok := false;
        case Some((p, n)) =>
          TakeUnknown([Field(tag / 8, p)]);
          used := n;
      }
    }

    /**
     Parses the input onto this message.  A zero or malformed tag stops the loop before the end
     of the input, which the caller takes for a failure like any other.
     */
    method MergePartialFromCodedStream(s: Bytes) returns (ok: bool)
      requires Valid()
      modifies this
      ensures Valid()
      ensures ok <==> ParseInto(T.Absorb, old(Value()), s).Some?
      ensures ok ==> ParseInto(T.Absorb, old(Value()), s) == Some(Value())
    {
      hide Valid, Value, ReadPayload, ReadVarint, ParseInto, T.Absorb;
      var rest := s;
      while rest != []
        invariant Valid()
        invariant ParseInto(T.Absorb, Value(), rest) == ParseInto(T.Absorb, old(Value()), s)
        decreases |rest|
      {
        ParseStep(T.Absorb, Value(), rest);
        match ReadTag(rest)
        case None => return false;
        case Some((tag, n)) =>
          if tag / 8 == 0 {
            return false;
          }
          var done, used := MergeField(tag, rest[n..]);
          if !done {
            return false;
          }
          rest := rest[n + used..];
      }
      ParseEnd(T.Absorb, Value());
      return true;
    }

    /** What each member contributes to the serialization. */
    lemma Pieces()
      ensures T.Serialize(Value()) ==
              [] + WrittenIf(Has(hasBits, 0x001), WriteString(1, hostname))
              + WrittenIf(Has(hasBits, 0x002), WriteString(2, macAddr))
              + WrittenIf(Has(hasBits, 0x004), WriteString(3, ipAddr))
              + WrittenIf(Has(hasBits, 0x008), WriteString(4, sensorChannel))
              + WrittenIf(Has(hasBits, 0x010), WriteString(5, sensorHeight))
              + WrittenIf(Has(hasBits, 0x020), WriteString(6, sensorOffset))
              + WrittenIf(Has(hasBits, 0x040), WriteString(7, romoteIpAddr))
              + WrittenIf(Has(hasBits, 0x100), WriteBool(8, calibrationStatus))
              + WrittenIf(Has(hasBits, 0x080), WriteString(9, termConfig))
              + EncodeFields(unknown)
    {
      hide Has, Value, Held, EncodeFields, WrittenIf, SizeIf, DelimitedSize, OptString, WriteString, OptBool,
        WriteBool, T.Serialize;
      ValueParts();
      T.SerializePieces(Value());
      StringField(1, Has(hasBits, 0x001), hostname);
      StringField(2, Has(hasBits, 0x002), macAddr);
      StringField(3, Has(hasBits, 0x004), ipAddr);
      StringField(4, Has(hasBits, 0x008), sensorChannel);
      StringField(5, Has(hasBits, 0x010), sensorHeight);
      StringField(6, Has(hasBits, 0x020), sensorOffset);
      StringField(7, Has(hasBits, 0x040), romoteIpAddr);
      BoolField(8, Has(hasBits, 0x100), calibrationStatus);
      StringField(9, Has(hasBits, 0x080), termConfig);
    }

    /** How many bytes each member contributes. */
    lemma PieceSizes()
      ensures |T.Serialize(Value())| ==
              SizeIf(Has(hasBits, 0x001), 1 + DelimitedSize(|hostname|))
              + SizeIf(Has(hasBits, 0x002), 1 + DelimitedSize(|macAddr|))
              + SizeIf(Has(hasBits, 0x004), 1 + DelimitedSize(|ipAddr|))
              + SizeIf(Has(hasBits, 0x008), 1 + DelimitedSize(|sensorChannel|))
              + SizeIf(Has(hasBits, 0x010), 1 + DelimitedSize(|sensorHeight|))
              + SizeIf(Has(hasBits, 0x020), 1 + DelimitedSize(|sensorOffset|))
              + SizeIf(Has(hasBits, 0x040), 1 + DelimitedSize(|romoteIpAddr|))
              + SizeIf(Has(hasBits, 0x100), 1 + 1)
              + SizeIf(Has(hasBits, 0x080), 1 + DelimitedSize(|termConfig|))
              + |EncodeFields(unknown)|
    {
      hide Has, Value, Held, EncodeFields, WrittenIf, SizeIf, DelimitedSize, OptString, WriteString, OptBool,
        WriteBool, T.Serialize;
      Pieces();
      StringField(1, Has(hasBits, 0x001), hostname);
      StringField(2, Has(hasBits, 0x002), macAddr);
      StringField(3, Has(hasBits, 0x004), ipAddr);
      StringField(4, Has(hasBits, 0x008), sensorChannel);
      StringField(5, Has(hasBits, 0x010), sensorHeight);
      StringField(6, Has(hasBits, 0x020), sensorOffset);
      StringField(7, Has(hasBits, 0x040), romoteIpAddr);
      BoolField(8, Has(hasBits, 0x100), calibrationStatus);
      StringField(9, Has(hasBits, 0x080), termConfig);
    }

    method SerializeWithCachedSizes() returns (output: Bytes)
      ensures output == T.Serialize(Value())
    {
      hide Has, Value, Held, EncodeFields, WrittenIf, SizeIf, DelimitedSize, OptString, WriteString, OptBool,
        WriteBool, T.Serialize;
      Pieces();
      output := [];
      output := output + WrittenIf(Has(hasBits, 0x001), WriteString(1, hostname));
      output := output + WrittenIf(Has(hasBits, 0x002), WriteString(2, macAddr));
      output := output + WrittenIf(Has(hasBits, 0x004), WriteString(3, ipAddr));
      output := output + WrittenIf(Has(hasBits, 0x008), WriteString(4, sensorChannel));
      output := output + WrittenIf(Has(hasBits, 0x010), WriteString(5, sensorHeight));
      output := output + WrittenIf(Has(hasBits, 0x020), WriteString(6, sensorOffset));
      output := output + WrittenIf(Has(hasBits, 0x040), WriteString(7, romoteIpAddr));
      output := output + WrittenIf(Has(hasBits, 0x100), WriteBool(8, calibrationStatus));
      output := output + WrittenIf(Has(hasBits, 0x080), WriteString(9, termConfig));
      output := output + EncodeFields(unknown);
    }

    method RequiredFieldsByteSizeFallback() returns (total: nat)
      ensures total == SizeIf(Has(hasBits, 0x001), 1 + DelimitedSize(|hostname|))
                       + SizeIf(Has(hasBits, 0x002), 1 + DelimitedSize(|macAddr|))
                       + SizeIf(Has(hasBits, 0x004), 1 + DelimitedSize(|ipAddr|))
    {
      total := 0;
      if Has(hasBits, 0x001) {
        total := total + (1 + DelimitedSize(|hostname|));
      }
      if Has(hasBits, 0x002) {
        total := total + (1 + DelimitedSize(|macAddr|));
      }
      if Has(hasBits, 0x004) {
        total := total + (1 + DelimitedSize(|ipAddr|));
      }
    }

    /** The required members: straight through when all are present, else one by one. */
    method RequiredFieldsByteSize() returns (total: nat)
      ensures total == SizeIf(Has(hasBits, 0x001), 1 + DelimitedSize(|hostname|))
                       + SizeIf(Has(hasBits, 0x002), 1 + DelimitedSize(|macAddr|))
                       + SizeIf(Has(hasBits, 0x004), 1 + DelimitedSize(|ipAddr|))
    {
      hide Has, HasAll, DelimitedSize;
      if HasAll(hasBits, 0x007) {
        AllBits(hasBits, 0x007);
        total := (1 + DelimitedSize(|hostname|)) + (1 + DelimitedSize(|macAddr|)) + (1 + DelimitedSize(|ipAddr|));
      } else {
        total := RequiredFieldsByteSizeFallback();
      }
    }

    /** The optional members whose presence bits share one mask. */
    method GroupedFieldsByteSize() returns (total: nat)
      ensures total == SizeIf(Has(hasBits, 0x008), 1 + DelimitedSize(|sensorChannel|))
                       + SizeIf(Has(hasBits, 0x010), 1 + DelimitedSize(|sensorHeight|))
                       + SizeIf(Has(hasBits, 0x020), 1 + DelimitedSize(|sensorOffset|))
                       + SizeIf(Has(hasBits, 0x040), 1 + DelimitedSize(|romoteIpAddr|))
                       + SizeIf(Has(hasBits, 0x080), 1 + DelimitedSize(|termConfig|))
    {
      hide Has, DelimitedSize;
      GroupBits(hasBits, 248);
      total := 0;
      if Has(hasBits, 248) {
        total := total + SizeIf(Has(hasBits, 0x008), 1 + DelimitedSize(|sensorChannel|));
        total := total + SizeIf(Has(hasBits, 0x010), 1 + DelimitedSize(|sensorHeight|));
        total := total + SizeIf(Has(hasBits, 0x020), 1 + DelimitedSize(|sensorOffset|));
        total := total + SizeIf(Has(hasBits, 0x040), 1 + DelimitedSize(|romoteIpAddr|));
        total := total + SizeIf(Has(hasBits, 0x080), 1 + DelimitedSize(|termConfig|));
      }
    }

    /** The size computed over grouped masks is the length of what is printed. */
    method ByteSizeLong() returns (total: nat)
      ensures total == |T.Serialize(Value())|
    {
      hide Has, Value, Held, EncodeFields, WrittenIf, SizeIf, DelimitedSize, OptString, WriteString, OptBool,
        WriteBool, T.Serialize;
      PieceSizes();
      total := |EncodeFields(unknown)|;
      var required := RequiredFieldsByteSize();
      total := total + required;
      var grouped := GroupedFieldsByteSize();
      total := total + grouped;
      total := total + SizeIf(Has(hasBits, 0x100), 1 + 1);
    }
  }
}
