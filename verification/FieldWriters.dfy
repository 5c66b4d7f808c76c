/** How the serializers write one member, and how the size computations count it. */
module FieldWriters {
  import opened Machine
  import opened WireFormat
  import opened FieldFold
  import opened PresenceBits

  function WriteTag(number: nat, wireType: uint8): Bytes {
    EncodeVarint(number * 8 + wireType)
  }

  function WriteString(number: nat, s: Bytes): Bytes {
    WriteTag(number, 2) + (EncodeVarint(|s|) + s)
  }

  function WriteUInt32(number: nat, v: uint32): Bytes {
    WriteTag(number, 0) + EncodeVarint(v)
  }

  function WriteInt32(number: nat, v: int32): Bytes {
    WriteTag(number, 0) + EncodeVarint(SignExtend(v))
  }

  function WriteBool(number: nat, b: bool): Bytes {
    WriteTag(number, 0) + [if b then 1 else 0]
  }

  /** `StringSize` and `MessageSize`: the length prefix and the data. */
  function DelimitedSize(n: nat): nat {
    VarintSize(n) + n
  }

  function UInt32Size(v: uint32): nat {
    VarintSize(v)
  }

  function Int32Size(v: int32): nat {
    if v < 0 then 10 else VarintSize(v)
  }

  /** What an `if (has_x())` around a write or around an addition contributes. */
  function WrittenIf(present: bool, s: Bytes): Bytes {
    if present then s else []
  }

  function SizeIf(present: bool, n: nat): nat {
    if present then n else 0
  }

  lemma StringField(number: nat, present: bool, s: Bytes)
    requires number < 16
    ensures EncodeFields(OptString(number, Held(present, s))) == WrittenIf(present, WriteString(number, s))
    ensures |WrittenIf(present, WriteString(number, s))| == SizeIf(present, 1 + DelimitedSize(|s|))
  {
    hide VarintSize;
    OneFieldEncoded(Field(number, Delimited(s)));
    VarintSizeIsLength(|s|);
  }

  lemma UInt32Field(number: nat, present: bool, v: uint32)
    requires number < 16
    ensures EncodeFields(OptUInt32(number, Held(present, v))) == WrittenIf(present, WriteUInt32(number, v))
    ensures |WrittenIf(present, WriteUInt32(number, v))| == SizeIf(present, 1 + UInt32Size(v))
  {
    hide VarintSize;
    OneFieldEncoded(Field(number, Varint(v)));
    VarintSizeIsLength(v);
  }

  lemma Int32Field(number: nat, present: bool, v: int32)
    requires number < 16
    ensures EncodeFields(OptInt32(number, Held(present, v))) == WrittenIf(present, WriteInt32(number, v))
    ensures |WrittenIf(present, WriteInt32(number, v))| == SizeIf(present, 1 + Int32Size(v))
  {
    OneFieldEncoded(Field(number, Varint(SignExtend(v))));
    VarintSizeIsLength(SignExtend(v));
  }

  lemma BoolField(number: nat, present: bool, b: bool)
    requires number < 16
    ensures EncodeFields(OptBool(number, Held(present, b))) == WrittenIf(present, WriteBool(number, b))
    ensures |WrittenIf(present, WriteBool(number, b))| == SizeIf(present, 1 + 1)
  {
    OneFieldEncoded(Field(number, Varint(if b then 1 else 0)));
  }

  /** Emitting a run of fields piece by piece. */
  lemma Emit(out: Bytes, piece: seq<Field>, rest: seq<Field>)
    ensures out + EncodeFields(piece + rest) == (out + EncodeFields(piece)) + EncodeFields(rest)
    ensures |EncodeFields(piece + rest)| == |EncodeFields(piece)| + |EncodeFields(rest)|
  {
    EncodeFieldsConcatenation(piece, rest);
  }

  /** A string member that the presence bit says is empty anyway is emptied only if it is present. */
  function Cleared(present: bool, s: Bytes): (r: Bytes)
    requires !present ==> s == []
    ensures r == []
  {
    if present then [] else s
  }
}
