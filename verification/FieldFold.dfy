/**
 The part of message parsing that does not depend on the message class.

 A class says what one field does to a message (`absorb`, one turn of its tag-dispatch
 loop) and how two messages combine (`merge`, its `MergeFrom`).  Whenever merging is
 associative with the empty message as unit and absorbing a field is merging in the
 one-field message, parsing is a homomorphism from concatenation to merging.
 */
module FieldFold {
  import opened Wrappers
  import opened Machine
  import opened WireFormat

  /** Absorbs the fields one after the other, stopping at the first that is refused. */
  function Fold<M>(absorb: (M, Field) -> Option<M>, m: M, fs: seq<Field>): Option<M> {
    if fs == [] then Some(m) else
    match absorb(m, fs[0])
    case None => None
    case Some(m') => Fold(absorb, m', fs[1..])
  }

  /** `MergePartialFromCodedStream` on a message that already holds `m`. */
  function ParseInto<M>(absorb: (M, Field) -> Option<M>, m: M, s: Bytes): Option<M> {
    match Fields(s)
    case None => None
    case Some(fs) => Fold(absorb, m, fs)
  }

  /** `merge` where the second message may be missing because its parse failed. */
  function MergeParsed<M>(merge: (M, M) -> M, a: M, b: Option<M>): Option<M> {
    match b
    case None => None
    case Some(m) => Some(merge(a, m))
  }

  ghost predicate MergesFields<M(!new)>(absorb: (M, Field) -> Option<M>, merge: (M, M) -> M, empty: M) {
    && (forall a, b, c {:trigger merge(merge(a, b), c)} :: merge(merge(a, b), c) == merge(a, merge(b, c)))
    && (forall a {:trigger merge(a, empty)} :: merge(a, empty) == a)
    && (forall a, f {:trigger absorb(a, f)} :: absorb(a, f) == MergeParsed(merge, a, absorb(empty, f)))
  }

  /** One turn of the parse loop: the first field, then the rest of the input. */
  lemma ParseStep<M>(absorb: (M, Field) -> Option<M>, m: M, s: Bytes)
    requires s != []
    ensures ReadField(s).None? ==> ParseInto(absorb, m, s) == None
    ensures ReadField(s).Some? ==>
              var (f, n) := ReadField(s).value;
              ParseInto(absorb, m, s) ==
              if absorb(m, f).None? then None else ParseInto(absorb, absorb(m, f).value, s[n..])
  {
    hide ReadField;
    if ReadField(s).Some? {
      var (f, n) := ReadField(s).value;
      if Fields(s[n..]).Some? {
        assert ([f] + Fields(s[n..]).value)[1..] == Fields(s[n..]).value;
      }
    }
  }

  lemma ParseEnd<M>(absorb: (M, Field) -> Option<M>, m: M)
    ensures ParseInto(absorb, m, []) == Some(m)
  {
  }

  lemma {:induction false} FoldConcatenation<M>(absorb: (M, Field) -> Option<M>, m: M, a: seq<Field>, b: seq<Field>)
    ensures Fold(absorb, m, a + b) ==
            match Fold(absorb, m, a) case None => None case Some(m') => Fold(absorb, m', b)
    decreases |a|
  {
    if a == [] {
      assert a + b == b;
    } else {
      assert (a + b)[1..] == a[1..] + b;
      match absorb(m, a[0])
      case None =>
      case Some(m') => FoldConcatenation(absorb, m', a[1..], b);
    }
  }

  /** Folding over the field of an optional member, which may not be there. */
  lemma FoldOptional<M>(absorb: (M, Field) -> Option<M>, m: M, o: seq<Field>, m': M, rest: seq<Field>)
    requires if o == [] then m' == m else |o| == 1 && absorb(m, o[0]) == Some(m')
    ensures Fold(absorb, m, o + rest) == Fold(absorb, m', rest)
  {
    if o == [] {
      assert o + rest == rest;
    } else {
      assert (o + rest)[1..] == rest;
    }
  }

  lemma {:induction false} FoldIsMerge<M(!new)>(absorb: (M, Field) -> Option<M>, merge: (M, M) -> M, empty: M, m: M, fs: seq<Field>)
    requires MergesFields(absorb, merge, empty)
    ensures Fold(absorb, m, fs) == MergeParsed(merge, m, Fold(absorb, empty, fs))
    decreases |fs|
  {
    if fs == [] {
      assert merge(m, empty) == m;
    } else {
      assert absorb(m, fs[0]) == MergeParsed(merge, m, absorb(empty, fs[0]));
      match absorb(empty, fs[0])
      case None =>
      case Some(x) =>
        FoldIsMerge(absorb, merge, empty, merge(m, x), fs[1..]);
        FoldIsMerge(absorb, merge, empty, x, fs[1..]);
        match Fold(absorb, empty, fs[1..])
        case None =>
        case Some(y) => assert merge(merge(m, x), y) == merge(m, merge(x, y));
    }
  }

  /** Parsing onto a message is parsing afresh and merging the result in. */
  lemma ParseIsMerge<M(!new)>(absorb: (M, Field) -> Option<M>, merge: (M, M) -> M, empty: M, m: M, s: Bytes)
    requires MergesFields(absorb, merge, empty)
    ensures ParseInto(absorb, m, s) == MergeParsed(merge, m, ParseInto(absorb, empty, s))
  {
    if Fields(s).Some? {
      FoldIsMerge(absorb, merge, empty, m, Fields(s).value);
    }
  }

  /** Parsing two inputs laid end to end: parse the one, then go on with the other. */
  lemma ParseConcatenation<M>(absorb: (M, Field) -> Option<M>, m: M, a: Bytes, b: Bytes)
    requires Fields(a).Some?
    ensures ParseInto(absorb, m, a + b) ==
            match ParseInto(absorb, m, a) case None => None case Some(m') => ParseInto(absorb, m', b)
  {
    hide Fields, Fold;
    FieldsOfConcatenation(a, b);
    if Fields(b).Some? {
      FoldConcatenation(absorb, m, Fields(a).value, Fields(b).value);
    }
  }

  /** A property of messages that every absorbed field keeps holds of what is parsed. */
  lemma {:induction false} FoldKeeps<M(!new)>(absorb: (M, Field) -> Option<M>, good: M -> bool, m: M, fs: seq<Field>)
    requires forall a, f {:trigger absorb(a, f)} ::
               good(a) && Representable(f) && absorb(a, f).Some? ==> good(absorb(a, f).value)
    requires good(m) && forall f :: f in fs ==> Representable(f)
    ensures Fold(absorb, m, fs).Some? ==> good(Fold(absorb, m, fs).value)
    decreases |fs|
  {
    if fs != [] {
      match absorb(m, fs[0])
      case None =>
      case Some(m') => FoldKeeps(absorb, good, m', fs[1..]);
    }
  }

  lemma ParseKeeps<M(!new)>(absorb: (M, Field) -> Option<M>, good: M -> bool, m: M, s: Bytes)
    requires forall a, f {:trigger absorb(a, f)} ::
               good(a) && Representable(f) && absorb(a, f).Some? ==> good(absorb(a, f).value)
    requires good(m)
    ensures ParseInto(absorb, m, s).Some? ==> good(ParseInto(absorb, m, s).value)
  {
    if Fields(s).Some? {
      FieldsAreRepresentable(s);
      FoldKeeps(absorb, good, m, Fields(s).value);
    }
  }

  /** Parsing an encoding absorbs exactly the fields that were encoded. */
  lemma ParseOfEncoding<M>(absorb: (M, Field) -> Option<M>, m: M, fs: seq<Field>)
    requires forall f :: f in fs ==> Shaped(f)
    requires |EncodeFields(fs)| < TWO31
    ensures ParseInto(absorb, m, EncodeFields(fs)) == Fold(absorb, m, fs)
  {
    hide Fields, Shaped, Representable, EncodeFields;
    SmallMessageIsRepresentable(fs);
    FieldsOfEncoding(fs);
  }

  /** One more field at the end of an input is absorbed last. */
  lemma ParseOneMore<M>(absorb: (M, Field) -> Option<M>, m: M, s: Bytes, f: Field)
    requires ParseInto(absorb, m, s).Some? && Representable(f)
    ensures ParseInto(absorb, m, s + EncodeField(f)) == absorb(ParseInto(absorb, m, s).value, f)
  {
    hide Fields, Representable, EncodeField;
    var m' := ParseInto(absorb, m, s).value;
    FieldsOfEncoding([f]);
    OneFieldEncoded(f);
    ParseConcatenation(absorb, m, s, EncodeField(f));
    assert [f][1..] == [];
    assert Fold(absorb, m', [f]) == absorb(m', f);
  }

  /** A mark that only certain fields set is there afterwards if it was, or if one of them was absorbed. */
  lemma {:induction false} FoldSets<M(!new)>(absorb: (M, Field) -> Option<M>, has: M -> bool, sets: Field -> bool, m: M, fs: seq<Field>)
    requires forall a, f {:trigger absorb(a, f)} ::
               absorb(a, f).Some? ==> (has(absorb(a, f).value) <==> has(a) || sets(f))
    requires Fold(absorb, m, fs).Some?
    ensures has(Fold(absorb, m, fs).value) <==> has(m) || exists f :: f in fs && sets(f)
    decreases |fs|
  {
    if fs != [] {
      assert absorb(m, fs[0]).Some?;
      FoldSets(absorb, has, sets, absorb(m, fs[0]).value, fs[1..]);
      assert forall f :: f in fs <==> f == fs[0] || f in fs[1..];
    }
  }

  lemma ParseSets<M(!new)>(absorb: (M, Field) -> Option<M>, has: M -> bool, sets: Field -> bool, m: M, s: Bytes)
    requires forall a, f {:trigger absorb(a, f)} ::
               absorb(a, f).Some? ==> (has(absorb(a, f).value) <==> has(a) || sets(f))
    requires ParseInto(absorb, m, s).Some?
    ensures Fields(s).Some?
    ensures has(ParseInto(absorb, m, s).value) <==> has(m) || exists f :: f in Fields(s).value && sets(f)
  {
    FoldSets(absorb, has, sets, m, Fields(s).value);
  }

  // ----- optional members -----

  /** The later of two values of a scalar member, if there is one ("Last One Wins"). */
  function Later<T>(a: Option<T>, b: Option<T>): Option<T> {
    if b.Some? then b else a
  }

  function OptString(number: nat, o: Option<Bytes>): seq<Field> {
    match o
    case None => []
    case Some(s) => [Field(number, Delimited(s))]
  }

  function OptUInt32(number: nat, o: Option<uint32>): seq<Field> {
    match o
    case None => []
    case Some(v) => [Field(number, Varint(v))]
  }

  /** Negative numbers are sign-extended to ten-byte varints. */
  function OptInt32(number: nat, o: Option<int32>): seq<Field> {
    match o
    case None => []
    case Some(v) => [Field(number, Varint(SignExtend(v)))]
  }

  function OptBool(number: nat, o: Option<bool>): seq<Field> {
    match o
    case None => []
    case Some(b) => [Field(number, Varint(if b then 1 else 0))]
  }

  // ----- optional members on the wire -----

  lemma StringMember(number: nat, o: Option<Bytes>)
    requires number < 16
    ensures EncodeFields(OptString(number, o)) == StringOnWire(8 * number + 2, o)
  {
    hide EncodeVarint;
    if o.Some? {
      OneFieldEncoded(Field(number, Delimited(o.value)));
      WireTypes(Field(number, Delimited(o.value)));
    }
  }

  lemma UInt32Member(number: nat, o: Option<uint32>)
    requires number < 16
    ensures EncodeFields(OptUInt32(number, o)) == VarintOnWire(8 * number, o)
  {
    hide EncodeVarint;
    if o.Some? {
      OneFieldEncoded(Field(number, Varint(o.value)));
      WireTypes(Field(number, Varint(o.value)));
    }
  }

  /** A negative number is written modulo 2^64. */
  lemma Int32Member(number: nat, o: Option<int32>)
    requires number < 16
    ensures EncodeFields(OptInt32(number, o)) ==
            VarintOnWire(8 * number, if o.Some? then Some(o.value % 0x1_0000_0000_0000_0000) else None)
  {
    hide EncodeVarint;
    if o.Some? {
      SignExtendIsModular(o.value);
      OneFieldEncoded(Field(number, Varint(SignExtend(o.value))));
      WireTypes(Field(number, Varint(SignExtend(o.value))));
    }
  }

  lemma BoolMember(number: nat, o: Option<bool>)
    requires number < 16
    ensures EncodeFields(OptBool(number, o)) == BoolOnWire(8 * number, o)
  {
    hide EncodeVarint;
    if o.Some? {
      var v: uint64 := if o.value then 1 else 0;
      OneFieldEncoded(Field(number, Varint(v)));
      WireTypes(Field(number, Varint(v)));
      SmallVarint(v);
    }
  }

  /** One more member at the end of an input, as it stands on the wire. */
  lemma OneMoreString<M>(absorb: (M, Field) -> Option<M>, m: M, s: Bytes, number: nat, d: Bytes)
    requires ParseInto(absorb, m, s).Some? && 1 <= number < 16 && |d| < TWO31
    ensures ParseInto(absorb, m, s + StringOnWire(8 * number + 2, Some(d))) ==
            absorb(ParseInto(absorb, m, s).value, Field(number, Delimited(d)))
  {
    hide ParseInto, EncodeVarint;
    WireTypes(Field(number, Delimited(d)));
    ParseOneMore(absorb, m, s, Field(number, Delimited(d)));
  }

  lemma OneMoreVarint<M>(absorb: (M, Field) -> Option<M>, m: M, s: Bytes, number: nat, v: uint64)
    requires ParseInto(absorb, m, s).Some? && 1 <= number < 16
    ensures ParseInto(absorb, m, s + VarintOnWire(8 * number, Some(v))) ==
            absorb(ParseInto(absorb, m, s).value, Field(number, Varint(v)))
  {
    hide ParseInto, EncodeVarint;
    WireTypes(Field(number, Varint(v)));
    ParseOneMore(absorb, m, s, Field(number, Varint(v)));
  }

  lemma OneMoreBool<M>(absorb: (M, Field) -> Option<M>, m: M, s: Bytes, number: nat, b: bool)
    requires ParseInto(absorb, m, s).Some? && 1 <= number < 16
    ensures ParseInto(absorb, m, s + BoolOnWire(8 * number, Some(b))) ==
            absorb(ParseInto(absorb, m, s).value, Field(number, Varint(if b then 1 else 0)))
  {
    hide ParseInto, EncodeVarint;
    SmallVarint(if b then 1 else 0);
    OneMoreVarint(absorb, m, s, number, if b then 1 else 0);
    assert VarintOnWire(8 * number, Some(if b then 1 else 0)) == BoolOnWire(8 * number, Some(b));
  }
}
