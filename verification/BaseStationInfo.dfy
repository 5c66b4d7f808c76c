/** `interaction.BaseStationInfo` as generated: presence bits and members updated in place. */
module BaseStationInfo {
  import opened Wrappers
  import opened Machine
  import opened WireFormat
  import opened FieldFold
  import opened PresenceBits
  import opened FieldWriters

  import B = BaseStationInfoSpec

  class BaseStationInfo {
    var hasBits: bv32
    var hostname: Bytes
    var bsFreq: Bytes
    var bsLocation: Bytes
    var bsOrientation: Bytes
    var motorSpeed: Bytes
    var bsId: uint32
    var ingroupAddr: uint32
    var ledStatus: bool
    var motorStatus: bool
    var unknown: seq<Field>

    /** A member whose presence bit is off holds its default. */
    ghost predicate Valid()
      reads this
    {
      && (!Has(hasBits, 0x001) ==> hostname == [])
      && (!Has(hasBits, 0x002) ==> bsFreq == [])
      && (!Has(hasBits, 0x004) ==> bsLocation == [])
      && (!Has(hasBits, 0x008) ==> bsOrientation == [])
      && (!Has(hasBits, 0x010) ==> motorSpeed == [])
      && (!Has(hasBits, 0x020) ==> bsId == 0)
      && (!Has(hasBits, 0x040) ==> ingroupAddr == 0)
      && (!Has(hasBits, 0x080) ==> !ledStatus)
      && (!Has(hasBits, 0x100) ==> !motorStatus)
    }

    ghost function Value(): B.BaseStation
      reads this
    {
      B.BaseStation(
        Held(Has(hasBits, 0x001), hostname),
        Held(Has(hasBits, 0x020), bsId),
        Held(Has(hasBits, 0x040), ingroupAddr),
        Held(Has(hasBits, 0x002), bsFreq),
        Held(Has(hasBits, 0x004), bsLocation),
        Held(Has(hasBits, 0x008), bsOrientation),
        Held(Has(hasBits, 0x080), ledStatus),
        Held(Has(hasBits, 0x100), motorStatus),
        Held(Has(hasBits, 0x010), motorSpeed),
        unknown)
    }

    lemma ValueParts()
      ensures Value().unknown == unknown
      ensures Value().hostname == Held(Has(hasBits, 0x001), hostname)
      ensures Value().bsId == Held(Has(hasBits, 0x020), bsId)
      ensures Value().ingroupAddr == Held(Has(hasBits, 0x040), ingroupAddr)
      ensures Value().bsFreq == Held(Has(hasBits, 0x002), bsFreq)
      ensures Value().bsLocation == Held(Has(hasBits, 0x004), bsLocation)
      ensures Value().bsOrientation == Held(Has(hasBits, 0x008), bsOrientation)
      ensures Value().ledStatus == Held(Has(hasBits, 0x080), ledStatus)
      ensures Value().motorStatus == Held(Has(hasBits, 0x100), motorStatus)
      ensures Value().motorSpeed == Held(Has(hasBits, 0x010), motorSpeed)
    {
      hide Has;
    }

    /** Every member, present or not, is as in a newly made object. */
    ghost predicate AllDefault()
      reads this
    {
      && hasBits == 0 && unknown == []
      && hostname == []
      && bsFreq == []
      && bsLocation == []
      && bsOrientation == []
      && motorSpeed == []
      && bsId == 0
      && ingroupAddr == 0
      && !ledStatus
      && !motorStatus
    }

    lemma DefaultIsEmpty()
      requires AllDefault()
      ensures Value() == B.EMPTY
    {
    }

    constructor ()
      ensures Valid() && AllDefault() && Value() == B.EMPTY
    {
      hasBits, unknown := 0, [];
      hostname, bsFreq, bsLocation, bsOrientation, motorSpeed := [], [], [], [], [];
      bsId, ingroupAddr := 0, 0;
      ledStatus, motorStatus := false, false;
    }

    method TakeHostname(present: bool, v: Bytes)
      requires Valid()
      modifies this
      ensures Valid() && Value() == old(Value()).(hostname := Later(old(Value()).hostname, Held(present, v)))
    {
      hide Has, With;
      if present {
        WithBits(hasBits, 0x001);
        hasBits := With(hasBits, 0x001);
        hostname := v;
      }
    }

    method TakeBsId(present: bool, v: uint32)
      requires Valid()
      modifies this
      ensures Valid() && Value() == old(Value()).(bsId := Later(old(Value()).bsId, Held(present, v)))
    {
      hide Has, With;
      if present {
        WithBits(hasBits, 0x020);
        hasBits := With(hasBits, 0x020);
        bsId := v;
      }
    }

    method TakeIngroupAddr(present: bool, v: uint32)
      requires Valid()
      modifies this
      ensures Valid() && Value() == old(Value()).(ingroupAddr := Later(old(Value()).ingroupAddr, Held(present, v)))
    {
      hide Has, With;
      if present {
        WithBits(hasBits, 0x040);
        hasBits := With(hasBits, 0x040);
        ingroupAddr := v;
      }
    }

    method TakeBsFreq(present: bool, v: Bytes)
      requires Valid()
      modifies this
      ensures Valid() && Value() == old(Value()).(bsFreq := Later(old(Value()).bsFreq, Held(present, v)))
    {
      hide Has, With;
      if present {
        WithBits(hasBits, 0x002);
        hasBits := With(hasBits, 0x002);
        bsFreq := v;
      }
    }

    method TakeBsLocation(present: bool, v: Bytes)
      requires Valid()
      modifies this
      ensures Valid() && Value() == old(Value()).(bsLocation := Later(old(Value()).bsLocation, Held(present, v)))
    {
      hide Has, With;
      if present {
        WithBits(hasBits, 0x004);
        hasBits := With(hasBits, 0x004);
        bsLocation := v;
      }
    }

    method TakeBsOrientation(present: bool, v: Bytes)
      requires Valid()
      modifies this
      ensures Valid() && Value() == old(Value()).(bsOrientation := Later(old(Value()).bsOrientation, Held(present, v)))
    {
      hide Has, With;
      if present {
        WithBits(hasBits, 0x008);
        hasBits := With(hasBits, 0x008);
        bsOrientation := v;
      }
    }

    method TakeLedStatus(present: bool, v: bool)
      requires Valid()
      modifies this
      ensures Valid() && Value() == old(Value()).(ledStatus := Later(old(Value()).ledStatus, Held(present, v)))
    {
      hide Has, With;
      if present {
        WithBits(hasBits, 0x080);
        hasBits := With(hasBits, 0x080);
        ledStatus := v;
      }
    }

    method TakeMotorStatus(present: bool, v: bool)
      requires Valid()
      modifies this
      ensures Valid() && Value() == old(Value()).(motorStatus := Later(old(Value()).motorStatus, Held(present, v)))
    {
      hide Has, With;
      if present {
        WithBits(hasBits, 0x100);
        hasBits := With(hasBits, 0x100);
        motorStatus := v;
      }
    }

    method TakeMotorSpeed(present: bool, v: Bytes)
      requires Valid()
      modifies this
      ensures Valid() && Value() == old(Value()).(motorSpeed := Later(old(Value()).motorSpeed, Held(present, v)))
    {
      hide Has, With;
      if present {
        WithBits(hasBits, 0x010);
        hasBits := With(hasBits, 0x010);
        motorSpeed := v;
      }
    }

    method TakeUnknown(fs: seq<Field>)
      requires Valid()
      modifies this
      ensures Valid() && Value() == old(Value()).(unknown := old(Value()).unknown + fs)
    {
      unknown := unknown + fs;
    }

    /** The mask-guarded reset leaves nothing behind. */
    method Clear()
      requires Valid()
      modifies this
      ensures Valid() && AllDefault() && Value() == B.EMPTY
    {
      hide Has;
      GroupBits(hasBits, 31);
      GroupBits(hasBits, 224);
      if Has(hasBits, 31) {
        hostname := Cleared(Has(hasBits, 0x001), hostname);
        bsFreq := Cleared(Has(hasBits, 0x002), bsFreq);
        bsLocation := Cleared(Has(hasBits, 0x004), bsLocation);
        bsOrientation := Cleared(Has(hasBits, 0x008), bsOrientation);
        motorSpeed := Cleared(Has(hasBits, 0x010), motorSpeed);
      }
      if Has(hasBits, 224) {
        bsId, ingroupAddr, ledStatus := 0, 0, false;
      }
      motorStatus := false;
      hasBits := 0;
      unknown := [];
      NoBits();
    }

    method MergeFrom(from: BaseStationInfo)
      requires Valid() && from.Valid() && from != this
      modifies this
      ensures Valid() && Value() == B.Merge(old(Value()), old(from.Value()))
    {
      hide Has, Valid, Value;
      var cached := from.hasBits;
      from.ValueParts();
      GroupBits(cached, 255);
      TakeUnknown(from.unknown);
      if Has(cached, 255) {
        TakeHostname(Has(cached, 0x001), from.hostname);
        TakeBsFreq(Has(cached, 0x002), from.bsFreq);
        TakeBsLocation(Has(cached, 0x004), from.bsLocation);
        TakeBsOrientation(Has(cached, 0x008), from.bsOrientation);
        TakeMotorSpeed(Has(cached, 0x010), from.motorSpeed);
        TakeBsId(Has(cached, 0x020), from.bsId);
        TakeIngroupAddr(Has(cached, 0x040), from.ingroupAddr);
        TakeLedStatus(Has(cached, 0x080), from.ledStatus);
      }
      TakeMotorStatus(Has(cached, 0x100), from.motorStatus);
    }

    /** The target becomes a copy of the source whatever it held before. */
    method CopyFrom(from: BaseStationInfo)
      requires Valid() && from.Valid()
      modifies this
      ensures Valid() && Value() == old(from.Value())
    {
      hide Valid, Value, AllDefault, B.Merge;
      if from == this {
        return;
      }
      Clear();
      MergeFrom(from);
      B.MergeIntoEmpty(from.Value());
    }

    method IsInitialized() returns (ok: bool)
      ensures ok <==> B.HasRequired(Value())
    {
      if hasBits & 0x061 != 0x061 {
        return false;
      }
      return true;
    }

    /** One turn of the parse loop on the input after the tag: the bytes it took, or failure. */
    method MergeField(tag: uint32, s: Bytes) returns (ok: bool, used: nat)
      requires Valid()
      modifies this
      ensures Valid()
      ensures ok <==> ReadPayload(tag % 8, s).Some?
      ensures ok ==>
                var (p, n) := ReadPayload(tag % 8, s).value;
                used == n && B.Absorb(old(Value()), Field(tag / 8, p)) == Some(Value())
    {
      hide Valid, Value, ReadVarint, ReadDelimited;
      ok, used := true, 0;
      if tag == 10 {
        match ReadDelimited(s)
        case None => ok := false;
        case Some((d, n)) =>
          TakeHostname(true, d);
          used := n;
      } else if tag == 16 {
        match ReadVarint(s)
        case None => ok := false;
        case Some((v, n)) =>
          TakeBsId(true, ToUInt32(v));
          used := n;
      } else if tag == 24 {
        match ReadVarint(s)
        case None => ok := false;
        case Some((v, n)) =>
          TakeIngroupAddr(true, ToUInt32(v));
          used := n;
      } else if tag == 34 {
        match ReadDelimited(s)
        case None => ok := false;
        case Some((d, n)) =>
          TakeBsFreq(true, d);
          used := n;
      } else if tag == 42 {
        match ReadDelimited(s)
        case None => ok := false;
        case Some((d, n)) =>
          TakeBsLocation(true, d);
          used := n;
      } else if tag == 50 {
        match ReadDelimited(s)
        case None => ok := false;
        case Some((d, n)) =>
          TakeBsOrientation(true, d);
          used := n;
      } else if tag == 56 {
        match ReadVarint(s)
        case None => ok := false;
        case Some((v, n)) =>
          TakeLedStatus(true, v != 0);
          used := n;
      } else if tag == 64 {
        match ReadVarint(s)
        case None => ok := false;
        case Some((v, n)) =>
          TakeMotorStatus(true, v != 0);
          used := n;
      } else if tag == 74 {
        match ReadDelimited(s)
        case None => ok := false;
        case Some((d, n)) =>
          TakeMotorSpeed(true, d);
          used := n;
      } else {
        match ReadPayload(tag % 8, s)
        case None => ok := false;
        case Some((p, n)) =>
          TakeUnknown([Field(tag / 8, p)]);
          used := n;
      }
    }

    /**
     Parses the input onto this message.  A zero or malformed tag stops the loop before the end
     of the input, which the caller takes for a failure like any other.
     */
    method MergePartialFromCodedStream(s: Bytes) returns (ok: bool)
      requires Valid()
      modifies this
      ensures Valid()
      ensures ok <==> ParseInto(B.Absorb, old(Value()), s).Some?
      ensures ok ==> ParseInto(B.Absorb, old(Value()), s) == Some(Value())
    {
      hide Valid, Value, ReadPayload, ReadVarint, ParseInto, B.Absorb;
      var rest := s;
      while rest != []
        invariant Valid()
        invariant ParseInto(B.Absorb, Value(), rest) == ParseInto(B.Absorb, old(Value()), s)
        decreases |rest|
      {
        ParseStep(B.Absorb, Value(), rest);
        match ReadTag(rest)
        case None => return false;
        case Some((tag, n)) =>
          if tag / 8 == 0 {
            return false;
          }
          var done, used := MergeField(tag, rest[n..]);
          if !done {
            return false;
          }
          rest := rest[n + used..];
      }
      ParseEnd(B.Absorb, Value());
      return true;
    }

    /** What each member contributes to the serialization. */
    lemma Pieces()
      ensures B.Serialize(Value()) ==
              [] + WrittenIf(Has(hasBits, 0x001), WriteString(1, hostname))
              + WrittenIf(Has(hasBits, 0x020), WriteUInt32(2, bsId))
              + WrittenIf(Has(hasBits, 0x040), WriteUInt32(3, ingroupAddr))
              + WrittenIf(Has(hasBits, 0x002), WriteString(4, bsFreq))
              + WrittenIf(Has(hasBits, 0x004), WriteString(5, bsLocation))
              + WrittenIf(Has(hasBits, 0x008), WriteString(6, bsOrientation))
              + WrittenIf(Has(hasBits, 0x080), WriteBool(7, ledStatus))
              + WrittenIf(Has(hasBits, 0x100), WriteBool(8, motorStatus))
              + WrittenIf(Has(hasBits, 0x010), WriteString(9, motorSpeed))
              + EncodeFields(unknown)
    {
      hide Has, Value, Held, EncodeFields, WrittenIf, SizeIf, DelimitedSize, OptString, WriteString, OptBool,
        WriteBool, UInt32Size, OptUInt32, WriteUInt32, B.Serialize;
      ValueParts();
      B.SerializePieces(Value());
      StringField(1, Has(hasBits, 0x001), hostname);
      UInt32Field(2, Has(hasBits, 0x020), bsId);
      UInt32Field(3, Has(hasBits, 0x040), ingroupAddr);
      StringField(4, Has(hasBits, 0x002), bsFreq);
      StringField(5, Has(hasBits, 0x004), bsLocation);
      StringField(6, Has(hasBits, 0x008), bsOrientation);
      BoolField(7, Has(hasBits, 0x080), ledStatus);
      BoolField(8, Has(hasBits, 0x100), motorStatus);
      StringField(9, Has(hasBits, 0x010), motorSpeed);
    }

    /** How many bytes each member contributes. */
    lemma PieceSizes()
      ensures |B.Serialize(Value())| ==
              SizeIf(Has(hasBits, 0x001), 1 + DelimitedSize(|hostname|))
              + SizeIf(Has(hasBits, 0x020), 1 + UInt32Size(bsId))
              + SizeIf(Has(hasBits, 0x040), 1 + UInt32Size(ingroupAddr))
              + SizeIf(Has(hasBits, 0x002), 1 + DelimitedSize(|bsFreq|))
              + SizeIf(Has(hasBits, 0x004), 1 + DelimitedSize(|bsLocation|))
              + SizeIf(Has(hasBits, 0x008), 1 + DelimitedSize(|bsOrientation|))
              + SizeIf(Has(hasBits, 0x080), 1 + 1)
              + SizeIf(Has(hasBits, 0x100), 1 + 1)
              + SizeIf(Has(hasBits, 0x010), 1 + DelimitedSize(|motorSpeed|))
              + |EncodeFields(unknown)|
    {
      hide Has, Value, Held, EncodeFields, WrittenIf, SizeIf, DelimitedSize, OptString, WriteString, OptBool,
        WriteBool, UInt32Size, OptUInt32, WriteUInt32, B.Serialize;
      Pieces();
      StringField(1, Has(hasBits, 0x001), hostname);
      UInt32Field(2, Has(hasBits, 0x020), bsId);
      UInt32Field(3, Has(hasBits, 0x040), ingroupAddr);
      StringField(4, Has(hasBits, 0x002), bsFreq);
      StringField(5, Has(hasBits, 0x004), bsLocation);
      StringField(6, Has(hasBits, 0x008), bsOrientation);
      BoolField(7, Has(hasBits, 0x080), ledStatus);
      BoolField(8, Has(hasBits, 0x100), motorStatus);
      StringField(9, Has(hasBits, 0x010), motorSpeed);
    }

    method SerializeWithCachedSizes() returns (output: Bytes)
      ensures output == B.Serialize(Value())
    {
      hide Has, Value, Held, EncodeFields, WrittenIf, SizeIf, DelimitedSize, OptString, WriteString, OptBool,
        WriteBool, UInt32Size, OptUInt32, WriteUInt32, B.Serialize;
      Pieces();
      output := [];
      output := output + WrittenIf(Has(hasBits, 0x001), WriteString(1, hostname));
      output := output + WrittenIf(Has(hasBits, 0x020), WriteUInt32(2, bsId));
      output := output + WrittenIf(Has(hasBits, 0x040), WriteUInt32(3, ingroupAddr));
      output := output + WrittenIf(Has(hasBits, 0x002), WriteString(4, bsFreq));
      output := output + WrittenIf(Has(hasBits, 0x004), WriteString(5, bsLocation));
      output := output + WrittenIf(Has(hasBits, 0x008), WriteString(6, bsOrientation));
      output := output + WrittenIf(Has(hasBits, 0x080), WriteBool(7, ledStatus));
      output := output + WrittenIf(Has(hasBits, 0x100), WriteBool(8, motorStatus));
      output := output + WrittenIf(Has(hasBits, 0x010), WriteString(9, motorSpeed));
      output := output + EncodeFields(unknown);
    }

    method RequiredFieldsByteSizeFallback() returns (total: nat)
      ensures total == SizeIf(Has(hasBits, 0x001), 1 + DelimitedSize(|hostname|))
                       + SizeIf(Has(hasBits, 0x020), 1 + UInt32Size(bsId))
                       + SizeIf(Has(hasBits, 0x040), 1 + UInt32Size(ingroupAddr))
    {
      total := 0;
      if Has(hasBits, 0x001) {
        total := total + (1 + DelimitedSize(|hostname|));
      }
      if Has(hasBits, 0x020) {
        total := total + (1 + UInt32Size(bsId));
      }
      if Has(hasBits, 0x040) {
        total := total + (1 + UInt32Size(ingroupAddr));
      }
    }

    /** The required members: straight through when all are present, else one by one. */
    method RequiredFieldsByteSize() returns (total: nat)
      ensures total == SizeIf(Has(hasBits, 0x001), 1 + DelimitedSize(|hostname|))
                       + SizeIf(Has(hasBits, 0x020), 1 + UInt32Size(bsId))
                       + SizeIf(Has(hasBits, 0x040), 1 + UInt32Size(ingroupAddr))
    {
      hide Has, HasAll, DelimitedSize;
      if HasAll(hasBits, 0x061) {
        AllBits(hasBits, 0x061);
        total := (1 + DelimitedSize(|hostname|)) + (1 + UInt32Size(bsId)) + (1 + UInt32Size(ingroupAddr));
      } else {
        total := RequiredFieldsByteSizeFallback();
      }
    }

    /** The optional members whose presence bits share one mask. */
    method GroupedFieldsByteSize() returns (total: nat)
      ensures total == SizeIf(Has(hasBits, 0x002), 1 + DelimitedSize(|bsFreq|))
                       + SizeIf(Has(hasBits, 0x004), 1 + DelimitedSize(|bsLocation|))
                       + SizeIf(Has(hasBits, 0x008), 1 + DelimitedSize(|bsOrientation|))
                       + SizeIf(Has(hasBits, 0x010), 1 + DelimitedSize(|motorSpeed|))
    {
      hide Has, DelimitedSize;
      GroupBits(hasBits, 30);
      total := 0;
      if Has(hasBits, 30) {
        total := total + SizeIf(Has(hasBits, 0x002), 1 + DelimitedSize(|bsFreq|));
        total := total + SizeIf(Has(hasBits, 0x004), 1 + DelimitedSize(|bsLocation|));
        total := total + SizeIf(Has(hasBits, 0x008), 1 + DelimitedSize(|bsOrientation|));
        total := total + SizeIf(Has(hasBits, 0x010), 1 + DelimitedSize(|motorSpeed|));
      }
    }

    /** The size computed over grouped masks is the length of what is printed. */
    method ByteSizeLong() returns (total: nat)
      ensures total == |B.Serialize(Value())|
    {
      hide Has, Value, Held, EncodeFields, WrittenIf, SizeIf, DelimitedSize, OptString, WriteString, OptBool,
        WriteBool, UInt32Size, OptUInt32, WriteUInt32, B.Serialize;
      PieceSizes();
      total := |EncodeFields(unknown)|;
      var required := RequiredFieldsByteSize();
      total := total + required;
      var grouped := GroupedFieldsByteSize();
      total := total + grouped;
      total := total + SizeIf(Has(hasBits, 0x080), 1 + 1);
      total := total + SizeIf(Has(hasBits, 0x100), 1 + 1);
    }
  }
}
