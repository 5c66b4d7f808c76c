/**
 `interaction.TermCommandInfo` and `interaction.BaseCommandInfo` as generated.  The two classes
 have the same members, bits and code; `base` tells which enumeration bounds the command number.
 */
module CommandInfo {
  import opened Wrappers
  import opened Machine
  import opened WireFormat
  import opened FieldFold
  import opened PresenceBits
  import opened FieldWriters

  import C = CommandInfoSpec

  class CommandInfo {
    const base: bool
    var hasBits: bv32
    var cmdArg1: Bytes
    var cmdArg2: Bytes
    var cmdArg3: Bytes
    var cmdId: int32
    var unknown: seq<Field>

    /** A member whose presence bit is off holds its default. */
    ghost predicate Valid()
      reads this
    {
      && (!Has(hasBits, 0x001) ==> cmdArg1 == [])
      && (!Has(hasBits, 0x002) ==> cmdArg2 == [])
      && (!Has(hasBits, 0x004) ==> cmdArg3 == [])
      && (!Has(hasBits, 0x008) ==> cmdId == 0)
    }

    ghost function Value(): C.Command
      reads this
    {
      C.Command(
        Held(Has(hasBits, 0x008), cmdId),
        Held(Has(hasBits, 0x001), cmdArg1),
        Held(Has(hasBits, 0x002), cmdArg2),
        Held(Has(hasBits, 0x004), cmdArg3),
        unknown)
    }

    lemma ValueParts()
      ensures Value().unknown == unknown
      ensures Value().cmdId == Held(Has(hasBits, 0x008), cmdId)
      ensures Value().cmdArg1 == Held(Has(hasBits, 0x001), cmdArg1)
      ensures Value().cmdArg2 == Held(Has(hasBits, 0x002), cmdArg2)
      ensures Value().cmdArg3 == Held(Has(hasBits, 0x004), cmdArg3)
    {
      hide Has;
    }

    /** Every member, present or not, is as in a newly made object. */
    ghost predicate AllDefault()
      reads this
    {
      && hasBits == 0 && unknown == []
      && cmdArg1 == []
      && cmdArg2 == []
      && cmdArg3 == []
      && cmdId == 0
    }

    lemma DefaultIsEmpty()
      requires AllDefault()
      ensures Value() == C.EMPTY
    {
    }

    constructor (base: bool)
      ensures Valid() && AllDefault() && Value() == C.EMPTY && this.base == base
    {
      this.base := base;
      hasBits, unknown := 0, [];
      cmdArg1, cmdArg2, cmdArg3 := [], [], [];
      cmdId := 0;
    }

    method TakeCmdId(present: bool, v: int32)
      requires Valid()
      modifies this
      ensures Valid() && Value() == old(Value()).(cmdId := Later(old(Value()).cmdId, Held(present, v)))
    {
      hide Has, With;
      if present {
        WithBits(hasBits, 0x008);
        hasBits := With(hasBits, 0x008);
        cmdId := v;
      }
    }

    method TakeCmdArg1(present: bool, v: Bytes)
      requires Valid()
      modifies this
      ensures Valid() && Value() == old(Value()).(cmdArg1 := Later(old(Value()).cmdArg1, Held(present, v)))
    {
      hide Has, With;
      if present {
        WithBits(hasBits, 0x001);
        hasBits := With(hasBits, 0x001);
        cmdArg1 := v;
      }
    }

    method TakeCmdArg2(present: bool, v: Bytes)
      requires Valid()
      modifies this
      ensures Valid() && Value() == old(Value()).(cmdArg2 := Later(old(Value()).cmdArg2, Held(present, v)))
    {
      hide Has, With;
      if present {
        WithBits(hasBits, 0x002);
        hasBits := With(hasBits, 0x002);
        cmdArg2 := v;
      }
    }

    method TakeCmdArg3(present: bool, v: Bytes)
      requires Valid()
      modifies this
      ensures Valid() && Value() == old(Value()).(cmdArg3 := Later(old(Value()).cmdArg3, Held(present, v)))
    {
      hide Has, With;
      if present {
        WithBits(hasBits, 0x004);
        hasBits := With(hasBits, 0x004);
        cmdArg3 := v;
      }
    }

    method TakeUnknown(fs: seq<Field>)
      requires Valid()
      modifies this
      ensures Valid() && Value() == old(Value()).(unknown := old(Value()).unknown + fs)
    {
      unknown := unknown + fs;
    }

    /** The mask-guarded reset leaves nothing behind. */
    method Clear()
      requires Valid()
      modifies this
      ensures Valid() && AllDefault() && Value() == C.EMPTY
    {
      hide Has;
      GroupBits(hasBits, 7);
      if Has(hasBits, 7) {
        cmdArg1 := Cleared(Has(hasBits, 0x001), cmdArg1);
        cmdArg2 := Cleared(Has(hasBits, 0x002), cmdArg2);
        cmdArg3 := Cleared(Has(hasBits, 0x004), cmdArg3);
      }
      cmdId := 0;
      hasBits := 0;
      unknown := [];
      NoBits();
    }

    method MergeFrom(from: CommandInfo)
      requires Valid() && from.Valid() && from != this
      modifies this
      ensures Valid() && Value() == C.Merge(old(Value()), old(from.Value()))
    {
      hide Has, Valid, Value;
      var cached := from.hasBits;
      from.ValueParts();
      GroupBits(cached, 15);
      TakeUnknown(from.unknown);
      if Has(cached, 15) {
        TakeCmdArg1(Has(cached, 0x001), from.cmdArg1);
        TakeCmdArg2(Has(cached, 0x002), from.cmdArg2);
        TakeCmdArg3(Has(cached, 0x004), from.cmdArg3);
        TakeCmdId(Has(cached, 0x008), from.cmdId);
      }
    }

    /** The target becomes a copy of the source whatever it held before. */
    method CopyFrom(from: CommandInfo)
      requires Valid() && from.Valid()
      modifies this
      ensures Valid() && Value() == old(from.Value())
    {
      hide Valid, Value, AllDefault, C.Merge;
      if from == this {
        return;
      }
      Clear();
      MergeFrom(from);
      C.MergeIntoEmpty(from.Value());
    }

    method IsInitialized() returns (ok: bool)
      ensures ok <==> C.HasRequired(Value())
    {
      if hasBits & 0x008 != 0x008 {
        return false;
      }
      return true;
    }

    /** One turn of the parse loop on the input after the tag: the bytes it took, or failure. */
    method MergeField(tag: uint32, s: Bytes) returns (ok: bool, used: nat)
      requires Valid()
      modifies this
      ensures Valid()
      ensures ok <==> ReadPayload(tag % 8, s).Some?
      ensures ok ==>
                var (p, n) := ReadPayload(tag % 8, s).value;
                used == n && C.Absorber(base)(old(Value()), Field(tag / 8, p)) == Some(Value())
    {
      hide Valid, Value, ReadVarint, ReadDelimited;
      ok, used := true, 0;
      if tag == 8 {
        match ReadVarint(s)
        case None => ok := false;
        case Some((v, n)) =>
          if C.IsValidId(C.MaxId(base), ToInt32(v)) {
            TakeCmdId(true, ToInt32(v));
          } else {
            TakeUnknown([Field(1, Varint(SignExtend(ToInt32(v))))]);
          }
          used := n;
      } else if tag == 18 {
        match ReadDelimited(s)
        case None => ok := false;
        case Some((d, n)) =>
          TakeCmdArg1(true, d);
          used := n;
      } else if tag == 26 {
        match ReadDelimited(s)
        case None => ok := false;
        case Some((d, n)) =>
          TakeCmdArg2(true, d);
          used := n;
      } else if tag == 34 {
        match ReadDelimited(s)
        case None => ok := false;
        case Some((d, n)) =>
          TakeCmdArg3(true, d);
          used := n;
      } else {
        match ReadPayload(tag % 8, s)
        case None => ok := false;
        case Some((p, n)) =>
          TakeUnknown([Field(tag / 8, p)]);
          used := n;
      }
    }

    /**
     Parses the input onto this message.  A zero or malformed tag stops the loop before the end
     of the input, which the caller takes for a failure like any other.
     */
    method MergePartialFromCodedStream(s: Bytes) returns (ok: bool)
      requires Valid()
      modifies this
      ensures Valid()
      ensures ok <==> ParseInto(C.Absorber(base), old(Value()), s).Some?
      ensures ok ==> ParseInto(C.Absorber(base), old(Value()), s) == Some(Value())
    {
      hide Valid, Value, ReadPayload, ReadVarint, ParseInto, C.Absorb;
      var rest := s;
      while rest != []
        invariant Valid()
        invariant ParseInto(C.Absorber(base), Value(), rest) == ParseInto(C.Absorber(base), old(Value()), s)
        decreases |rest|
      {
        ParseStep(C.Absorber(base), Value(), rest);
        match ReadTag(rest)
        case None => return false;
        case Some((tag, n)) =>
          if tag / 8 == 0 {
            return false;
          }
          var done, used := MergeField(tag, rest[n..]);
          if !done {
            return false;
          }
          rest := rest[n + used..];
      }
      ParseEnd(C.Absorber(base), Value());
      return true;
    }

    /** What each member contributes to the serialization. */
    lemma Pieces()
      ensures C.Serialize(Value()) ==
              [] + WrittenIf(Has(hasBits, 0x008), WriteInt32(1, cmdId))
              + WrittenIf(Has(hasBits, 0x001), WriteString(2, cmdArg1))
              + WrittenIf(Has(hasBits, 0x002), WriteString(3, cmdArg2))
              + WrittenIf(Has(hasBits, 0x004), WriteString(4, cmdArg3))
              + EncodeFields(unknown)
    {
      hide Has, Value, Held, EncodeFields, WrittenIf, SizeIf, DelimitedSize, OptString, WriteString, Int32Size,
        OptInt32, WriteInt32, C.Serialize;
      ValueParts();
      C.SerializePieces(Value());
      Int32Field(1, Has(hasBits, 0x008), cmdId);
      StringField(2, Has(hasBits, 0x001), cmdArg1);
      StringField(3, Has(hasBits, 0x002), cmdArg2);
      StringField(4, Has(hasBits, 0x004), cmdArg3);
    }

    /** How many bytes each member contributes. */
    lemma PieceSizes()
      ensures |C.Serialize(Value())| ==
              SizeIf(Has(hasBits, 0x008), 1 + Int32Size(cmdId))
              + SizeIf(Has(hasBits, 0x001), 1 + DelimitedSize(|cmdArg1|))
              + SizeIf(Has(hasBits, 0x002), 1 + DelimitedSize(|cmdArg2|))
              + SizeIf(Has(hasBits, 0x004), 1 + DelimitedSize(|cmdArg3|))
              + |EncodeFields(unknown)|
    {
      hide Has, Value, Held, EncodeFields, WrittenIf, SizeIf, DelimitedSize, OptString, WriteString, Int32Size,
        OptInt32, WriteInt32, C.Serialize;
      Pieces();
      Int32Field(1, Has(hasBits, 0x008), cmdId);
      StringField(2, Has(hasBits, 0x001), cmdArg1);
      StringField(3, Has(hasBits, 0x002), cmdArg2);
      StringField(4, Has(hasBits, 0x004), cmdArg3);
    }

    method SerializeWithCachedSizes() returns (output: Bytes)
      ensures output == C.Serialize(Value())
    {
      hide Has, Value, Held, EncodeFields, WrittenIf, SizeIf, DelimitedSize, OptString, WriteString, Int32Size,
        OptInt32, WriteInt32, C.Serialize;
      Pieces();
      output := [];
      output := output + WrittenIf(Has(hasBits, 0x008), WriteInt32(1, cmdId));
      output := output + WrittenIf(Has(hasBits, 0x001), WriteString(2, cmdArg1));
      output := output + WrittenIf(Has(hasBits, 0x002), WriteString(3, cmdArg2));
      output := output + WrittenIf(Has(hasBits, 0x004), WriteString(4, cmdArg3));
      output := output + EncodeFields(unknown);
    }

    /** The size computed over grouped masks is the length of what is printed. */
    method ByteSizeLong() returns (total: nat)
      ensures total == |C.Serialize(Value())|
    {
      hide Has, Value, Held, EncodeFields, WrittenIf, DelimitedSize, OptString, WriteString, Int32Size, OptInt32,
        WriteInt32, C.Serialize;
      PieceSizes();
      total := |EncodeFields(unknown)|;
      GroupBits(hasBits, 7);
      total := total + SizeIf(Has(hasBits, 0x008), 1 + Int32Size(cmdId));
      if Has(hasBits, 7) {
        total := total + SizeIf(Has(hasBits, 0x001), 1 + DelimitedSize(|cmdArg1|));
        total := total + SizeIf(Has(hasBits, 0x002), 1 + DelimitedSize(|cmdArg2|));
        total := total + SizeIf(Has(hasBits, 0x004), 1 + DelimitedSize(|cmdArg3|));
      }
    }
  }
}
