/**
 The wire primitives under the generated message code: base-128 varints, tags and
 length-delimited records (Protocol Buffers Encoding guide, sections "Base 128 Varints"
 and "Message Structure").

 A message on the wire is a run of fields.  `ReadField` takes one field off the front of
 the input the way the tag-dispatch loops do, and `Fields` takes all of them.
 */
module WireFormat {
  import opened Arithmetic
  import opened Machine
  import opened Wrappers

  // ----- varints -----

  function EncodeVarint(v: nat): (s: Bytes)
    ensures s != []
  {
    if v < 128 then [v] else [128 + v % 128] + EncodeVarint(v / 128)
  }

  /** Reads a varint of at most `limit` bytes: its unreduced value and the bytes it took. */
  function DecodeVarint(s: Bytes, limit: nat): (r: Option<(nat, nat)>)
    ensures r.Some? ==> 0 < r.value.1 <= |s| && r.value.1 <= limit
    decreases limit
  {
    if s == [] || limit == 0 then None
    else if s[0] < 128 then Some((s[0], 1))
    else
      match DecodeVarint(s[1..], limit - 1)
      case None => None
      case Some((v, n)) => Some((s[0] - 128 + 128 * v, n + 1))
  }

  /** `ReadVarint64`: ten bytes at most, of which the low 64 bits count. */
  function ReadVarint(s: Bytes): (r: Option<(uint64, nat)>)
    ensures r.Some? ==> 0 < r.value.1 <= |s|
  {
    match DecodeVarint(s, 10)
    case None => None
    case Some((v, n)) => Some((v % TWO64, n))
  }

  /**
   `VarintSize64`: how many bytes `EncodeVarint` takes, by comparisons.  Beyond 64 bits,
   where no `size_t` reaches, the count just goes on.
   */
  function VarintSize(v: nat): nat {
    if v < 0x80 then 1
    else if v < 0x4000 then 2
    else if v < 0x20_0000 then 3
    else if v < 0x1000_0000 then 4
    else if v < 0x8_0000_0000 then 5
    else if v < 0x400_0000_0000 then 6
    else if v < 0x2_0000_0000_0000 then 7
    else if v < 0x100_0000_0000_0000 then 8
    else if v < 0x8000_0000_0000_0000 then 9
    else 9 + VarintSize(v / 0x8000_0000_0000_0000)
  }

  lemma VarintSizeStep(v: nat)
    requires v >= 128
    ensures VarintSize(v) == 1 + VarintSize(v / 128)
    decreases v
  {
    if v >= 0x4000_0000_0000_0000_0000 {
      VarintSizeStep(v / 0x8000_0000_0000_0000);
      assert v / 128 / 0x8000_0000_0000_0000 == v / 0x8000_0000_0000_0000 / 128;
    }
  }

  lemma {:induction false} VarintSizeIsLength(v: nat)
    ensures |EncodeVarint(v)| == VarintSize(v)
    decreases v
  {
    if v >= 128 {
      VarintSizeStep(v);
      VarintSizeIsLength(v / 128);
    }
  }

  lemma {:induction false} DecodeEncodedVarint(v: nat, rest: Bytes, limit: nat)
    requires |EncodeVarint(v)| <= limit
    ensures DecodeVarint(EncodeVarint(v) + rest, limit) == Some((v, |EncodeVarint(v)|))
    decreases v
  {
    if v >= 128 {
      var s := EncodeVarint(v) + rest;
      assert s[1..] == EncodeVarint(v / 128) + rest;
      DecodeEncodedVarint(v / 128, rest, limit - 1);
    }
  }

  lemma {:induction false} DecodeVarintPrefix(s: Bytes, t: Bytes, limit: nat)
    requires DecodeVarint(s, limit).Some?
    ensures DecodeVarint(s + t, limit) == DecodeVarint(s, limit)
    decreases limit
  {
    assert (s + t)[0] == s[0];
    if s[0] >= 128 {
      assert (s + t)[1..] == s[1..] + t;
      DecodeVarintPrefix(s[1..], t, limit - 1);
    }
  }

  lemma ReadEncodedVarint(v: uint64, rest: Bytes)
    ensures ReadVarint(EncodeVarint(v) + rest) == Some((v, |EncodeVarint(v)|))
  {
    hide EncodeVarint, DecodeVarint;
    VarintSizeIsLength(v);
    DecodeEncodedVarint(v, rest, 10);
  }

  lemma ReadVarintPrefix(s: Bytes, t: Bytes)
    requires ReadVarint(s).Some?
    ensures ReadVarint(s + t) == ReadVarint(s)
  {
    hide DecodeVarint;
    DecodeVarintPrefix(s, t, 10);
  }

  // ----- the bytes of a varint -----

  function Pow128(n: nat): (p: nat)
    ensures p > 0
  {
    if n == 0 then 1 else 128 * Pow128(n - 1)
  }

  /** The i-th digit to the base 128. */
  function Digit(v: nat, i: nat): nat {
    v / Pow128(i) % 128
  }

  /** Seven bits a byte, the low ones first, and the high bit on all bytes but the last. */
  lemma {:induction false} VarintBytes(v: nat, i: nat)
    requires i < |EncodeVarint(v)|
    ensures EncodeVarint(v)[i] % 128 == v / Pow128(i) % 128
    ensures EncodeVarint(v)[i] >= 128 <==> i < |EncodeVarint(v)| - 1
    decreases v
  {
    if v >= 128 && i > 0 {
      VarintBytes(v / 128, i - 1);
      DivideTwice(v, 128, Pow128(i - 1));
    }
  }

  /** The first `n` bytes are a varint: the last of them is the first byte below 128. */
  predicate EndsAt(s: Bytes, n: nat) {
    0 < n <= |s| && s[n - 1] < 128 && forall i :: 0 <= i < n - 1 ==> s[i] >= 128
  }

  lemma EndsAtTail(s: Bytes, n: nat)
    requires s != [] && s[0] >= 128 && n > 0
    ensures EndsAt(s, n + 1) <==> EndsAt(s[1..], n)
  {
    if n < |s| {
      assert s[1..][n - 1] == s[n];
      if EndsAt(s[1..], n) {
        forall i | 0 <= i < n ensures s[i] >= 128 {
          if i > 0 {
            assert s[1..][i - 1] == s[i];
          }
        }
      }
    }
  }

  /** The low seven bits of each byte are the digits of a number, to the base 128. */
  predicate HasDigits(v: nat, s: Bytes) {
    v < Pow128(|s|) && forall i :: 0 <= i < |s| ==> Digit(v, i) == s[i] % 128
  }

  lemma NextDigit(v: nat, low: nat, i: nat)
    requires low < 128
    ensures Digit(low + 128 * v, i + 1) == Digit(v, i)
    ensures Digit(low + 128 * v, 0) == low
  {
    DivideTwice(low + 128 * v, 128, Pow128(i));
    assert (low + 128 * v) / 128 == v;
  }

  lemma DigitsPrepended(v: nat, low: nat, s: Bytes)
    requires low < 128 && HasDigits(v, s)
    ensures HasDigits(low + 128 * v, [128 + low] + s)
  {
    hide Digit;
    var w, t := low + 128 * v, [128 + low] + s;
    forall i | 0 <= i < |t| ensures Digit(w, i) == t[i] % 128 {
      NextDigit(v, low, if i > 0 then i - 1 else 0);
    }
  }

  /** A varint is read up to its end, and its value has the bytes as digits. */
  lemma {:induction false} DecodedDigits(s: Bytes, limit: nat)
    requires DecodeVarint(s, limit).Some?
    ensures var (v, n) := DecodeVarint(s, limit).value; EndsAt(s, n) && HasDigits(v, s[..n])
    decreases limit
  {
    hide HasDigits, EndsAt;
    if s[0] < 128 {
      OneByte(s);
    } else {
      var (v, n) := DecodeVarint(s[1..], limit - 1).value;
      DecodedDigits(s[1..], limit - 1);
      EndsAtTail(s, n);
      DigitsPrepended(v, s[0] as int - 128, s[1..][..n]);
      assert s[..n + 1] == [s[0]] + s[1..][..n];
    }
  }

  lemma OneByte(s: Bytes)
    requires s != [] && s[0] < 128
    ensures EndsAt(s, 1) && HasDigits(s[0], s[..1])
  {
    assert Pow128(1) == 128;
  }

  /** Reading fails exactly if no varint ends within the limit. */
  lemma {:induction false} DecodeFails(s: Bytes, limit: nat)
    ensures DecodeVarint(s, limit).None? <==> forall n :: 0 < n <= limit ==> !EndsAt(s, n)
    decreases limit
  {
    if s != [] && limit > 0 {
      if s[0] < 128 {
        OneByte(s);
      } else {
        DecodeFails(s[1..], limit - 1);
        forall n | 0 < n <= limit - 1 ensures EndsAt(s, n + 1) == EndsAt(s[1..], n) {
          EndsAtTail(s, n);
        }
        assert forall n :: 0 < n <= limit ==> EndsAt(s, n) == (n > 1 && EndsAt(s[1..], n - 1)) by {
          forall n | 0 < n <= limit ensures EndsAt(s, n) == (n > 1 && EndsAt(s[1..], n - 1)) {
            if n > 1 {
              EndsAtTail(s, n - 1);
            }
          }
        }
        assert forall n :: 0 < n <= limit - 1 ==> EndsAt(s[1..], n) == EndsAt(s, n + 1);
      }
    }
  }

  /** `ReadVarint64` looks at ten bytes and keeps sixty-four bits. */
  lemma ReadVarintExactly(s: Bytes)
    ensures ReadVarint(s).None? <==> forall n :: 0 < n <= 10 ==> !EndsAt(s, n)
    ensures ReadVarint(s).Some? ==>
              var (v, n) := ReadVarint(s).value;
              && n <= 10 && EndsAt(s, n)
              && exists w: nat :: HasDigits(w, s[..n]) && v == w % 0x1_0000_0000_0000_0000
  {
    hide EndsAt, HasDigits;
    DecodeFails(s, 10);
    if DecodeVarint(s, 10).Some? {
      DecodedDigits(s, 10);
    }
  }

  // ----- the bytes of a field -----

  /** The wire types of the Encoding guide. */
  lemma WireTypes(f: Field)
    requires f.number < 16
    ensures f.payload.Varint? ==> EncodeField(f) == [8 * f.number] + EncodeVarint(f.payload.v)
    ensures f.payload.Fixed64? ==> EncodeField(f) == [8 * f.number + 1] + f.payload.bits
    ensures f.payload.Delimited? ==>
              EncodeField(f) == [8 * f.number + 2] + (EncodeVarint(|f.payload.data|) + f.payload.data)
    ensures f.payload.Fixed32? ==> EncodeField(f) == [8 * f.number + 5] + f.payload.bits
  {
    hide EncodeVarint;
    SmallVarint(f.number * 8 + WireType(f.payload));
  }

  lemma SmallVarint(v: nat)
    requires v < 128
    ensures EncodeVarint(v) == [v]
  {
  }

  /**
   The number and the wire type of a field are the two parts of its tag, however many bytes the
   tag takes; a field is refused only for its tag or for what follows it.
   */
  lemma FieldHeader(s: Bytes)
    ensures ReadField(s).Some? <==>
            && ReadVarint(s).Some?
            && var (v, n) := ReadVarint(s).value;
               var tag := v % 0x1_0000_0000;
               tag / 8 > 0 && ReadPayload(tag % 8, s[n..]).Some?
    ensures ReadField(s).Some? ==>
              var (v, n) := ReadVarint(s).value;
              var tag := v % 0x1_0000_0000;
              var (p, k) := ReadPayload(tag % 8, s[n..]).value;
              ReadField(s).value == (Field(tag / 8, p), n + k) && WireType(p) == tag % 8
  {
    hide ReadVarint, ReadPayload;
  }

  /** How much is read for each wire type. */
  lemma ReadRawPayload(s: Bytes)
    ensures ReadPayload(1, s) == if |s| < 8 then None else Some((Fixed64(s[..8]), 8))
    ensures ReadPayload(5, s) == if |s| < 4 then None else Some((Fixed32(s[..4]), 4))
    ensures ReadPayload(0, s).Some? <==> exists n :: 0 < n <= 10 && EndsAt(s, n)
    ensures forall t :: t == 3 || t == 4 || t == 6 || t == 7 ==> ReadPayload(t, s).None?
    ensures ReadPayload(2, s) ==
            match ReadVarint(s)
            case None => None
            case Some((len, n)) =>
              if len < 0x8000_0000 && n + len <= |s| then Some((Delimited(s[n..n + len]), n + len)) else None
  {
    hide EndsAt, HasDigits, ReadVarint;
    ReadVarintExactly(s);
  }

  // ----- fields -----

  datatype Payload =
    | Varint(v: uint64)
    | Fixed64(bits: Bytes)
    | Delimited(data: Bytes)
    | Fixed32(bits: Bytes)

  datatype Field = Field(number: nat, payload: Payload)

  function WireType(p: Payload): uint8 {
    match p
    case Varint(_) => 0
    case Fixed64(_) => 1
    case Delimited(_) => 2
    case Fixed32(_) => 5
  }

  /** The fields a reader can produce and a writer may emit, whatever the size of the data. */
  predicate Shaped(f: Field) {
    && 1 <= f.number < 0x2000_0000
    && (f.payload.Fixed64? ==> |f.payload.bits| == 8)
    && (f.payload.Fixed32? ==> |f.payload.bits| == 4)
  }

  /** A length-delimited record holds at most `INT_MAX` bytes. */
  predicate Representable(f: Field) {
    Shaped(f) && (f.payload.Delimited? ==> |f.payload.data| < TWO31)
  }

  function EncodePayload(p: Payload): Bytes {
    match p
    case Varint(v) => EncodeVarint(v)
    case Fixed64(b) => b
    case Delimited(d) => EncodeVarint(|d|) + d
    case Fixed32(b) => b
  }

  function EncodeField(f: Field): Bytes {
    EncodeVarint(f.number * 8 + WireType(f.payload)) + EncodePayload(f.payload)
  }

  function EncodeFields(fs: seq<Field>): Bytes {
    if fs == [] then [] else EncodeField(fs[0]) + EncodeFields(fs[1..])
  }

  /** `ReadTag`: a 32-bit tag; `None` also for the tag 0, which ends a message early. */
  function ReadTag(s: Bytes): (r: Option<(uint32, nat)>)
    ensures r.Some? ==> 0 < r.value.1 <= |s|
  {
    match ReadVarint(s)
    case None => None
    case Some((v, n)) => if ToUInt32(v) == 0 then None else Some((ToUInt32(v), n))
  }

  /** A length prefix and that many bytes. */
  function ReadDelimited(s: Bytes): (r: Option<(Bytes, nat)>)
    ensures r.Some? ==> 0 < r.value.1 <= |s| && |r.value.0| < TWO31
  {
    match ReadVarint(s)
    case None => None
    case Some((len, n)) =>
      if len >= TWO31 || len > |s| - n then None else Some((s[n..n + len], n + len))
  }

  function ReadPayload(wireType: nat, s: Bytes): (r: Option<(Payload, nat)>)
    ensures r.Some? ==> r.value.1 <= |s| && WireType(r.value.0) == wireType
  {
    if wireType == 0 then
      match ReadVarint(s)
      case None => None
      case Some((v, n)) => Some((Varint(v), n))
    else if wireType == 1 then
      if |s| < 8 then None else Some((Fixed64(s[..8]), 8))
    else if wireType == 2 then
      match ReadDelimited(s)
      case None => None
      case Some((d, n)) => Some((Delimited(d), n))
    else if wireType == 5 then
      if |s| < 4 then None else Some((Fixed32(s[..4]), 4))
    else None
  }

  function ReadField(s: Bytes): (r: Option<(Field, nat)>)
    ensures r.Some? ==> 0 < r.value.1 <= |s| && Representable(r.value.0)
  {
    match ReadTag(s)
    case None => None
    case Some((tag, n)) =>
      if tag / 8 == 0 then None else
      match ReadPayload(tag % 8, s[n..])
      case None => None
      case Some((p, k)) => Some((Field(tag / 8, p), n + k))
  }

  /** Every field of a message, if the whole input is a run of well-formed fields. */
  function Fields(s: Bytes): Option<seq<Field>>
    decreases |s|
  {
    if s == [] then Some([]) else
    match ReadField(s)
    case None => None
    case Some((f, n)) =>
      match Fields(s[n..])
      case None => None
      case Some(fs) => Some([f] + fs)
  }

  /** Does the input carry a field of this number and wire type? */
  ghost predicate Carries(s: Bytes, number: nat, wireType: nat) {
    Fields(s).Some? && exists f :: f in Fields(s).value && f.number == number && WireType(f.payload) == wireType
  }

  // ----- members on the wire -----

  /** A tag byte and a length-delimited value, or nothing. */
  function StringOnWire(tag: uint8, o: Option<Bytes>): Bytes {
    if o.None? then [] else [tag] + (EncodeVarint(|o.value|) + o.value)
  }

  /** A tag byte and a varint, or nothing. */
  function VarintOnWire(tag: uint8, o: Option<int>): Bytes
    requires o.Some? ==> o.value >= 0
  {
    if o.None? then [] else [tag] + EncodeVarint(o.value)
  }

  /** A tag byte and a byte 0 or 1, or nothing. */
  function BoolOnWire(tag: uint8, o: Option<bool>): Bytes {
    if o.None? then [] else [tag, if o.value then 1 else 0]
  }

  // ----- reading what was written -----

  lemma ReadEncodedDelimited(d: Bytes, rest: Bytes)
    requires |d| < TWO31
    ensures ReadDelimited(EncodeVarint(|d|) + d + rest) == Some((d, |EncodeVarint(|d|)| + |d|))
  {
    hide EncodeVarint, ReadVarint;
    var n := |EncodeVarint(|d|)|;
    var s := EncodeVarint(|d|) + d + rest;
    assert s == EncodeVarint(|d|) + (d + rest);
    ReadEncodedVarint(|d|, d + rest);
    assert s[n..n + |d|] == d;
  }

  lemma ReadEncodedPayload(p: Payload, rest: Bytes)
    requires Representable(Field(1, p))
    ensures ReadPayload(WireType(p), EncodePayload(p) + rest) == Some((p, |EncodePayload(p)|))
  {
    hide EncodeVarint, ReadVarint, ReadDelimited;
    match p
    case Varint(v) => ReadEncodedVarint(v, rest);
    case Delimited(d) => ReadEncodedDelimited(d, rest);
    case Fixed64(b) => assert (b + rest)[..8] == b;
    case Fixed32(b) => assert (b + rest)[..4] == b;
  }

  lemma ReadEncodedField(f: Field, rest: Bytes)
    requires Representable(f)
    ensures ReadField(EncodeField(f) + rest) == Some((f, |EncodeField(f)|))
  {
    hide EncodeVarint, EncodePayload, ReadVarint, ReadPayload;
    var tag: uint32 := f.number * 8 + WireType(f.payload);
    var t := EncodeVarint(tag);
    var body := EncodePayload(f.payload) + rest;
    assert EncodeField(f) + rest == t + body;
    assert ReadTag(t + body) == Some((tag, |t|)) by { ReadEncodedVarint(tag, body); }
    assert (t + body)[|t|..] == body;
    assert ReadPayload(tag % 8, body) == Some((f.payload, |EncodePayload(f.payload)|)) by {
      ReadEncodedPayload(f.payload, rest);
    }
  }

  lemma {:induction false} FieldsOfEncoding(fs: seq<Field>)
    requires forall f :: f in fs ==> Representable(f)
    ensures Fields(EncodeFields(fs)) == Some(fs)
  {
    hide EncodeField, ReadField;
    if fs != [] {
      var rest := EncodeFields(fs[1..]);
      ReadEncodedField(fs[0], rest);
      var s := EncodeField(fs[0]) + rest;
      assert s[|EncodeField(fs[0])|..] == rest;
      FieldsOfEncoding(fs[1..]);
      assert [fs[0]] + fs[1..] == fs;
    }
  }

  // ----- reading a prefix -----

  lemma ReadPayloadPrefix(wireType: nat, s: Bytes, t: Bytes)
    requires ReadPayload(wireType, s).Some?
    ensures ReadPayload(wireType, s + t) == ReadPayload(wireType, s)
  {
    if wireType == 0 {
      ReadVarintPrefix(s, t);
    } else if wireType == 1 {
      assert (s + t)[..8] == s[..8];
    } else if wireType == 2 {
      ReadVarintPrefix(s, t);
      var (len, n) := ReadVarint(s).value;
      assert (s + t)[n..n + len] == s[n..n + len];
    } else {
      assert (s + t)[..4] == s[..4];
    }
  }

  lemma ReadFieldPrefix(s: Bytes, t: Bytes)
    requires ReadField(s).Some?
    ensures ReadField(s + t) == ReadField(s)
  {
    hide ReadPayload, ReadVarint, DecodeVarint;
    var (tag, n) := ReadTag(s).value;
    assert ReadTag(s + t) == ReadTag(s) by { ReadVarintPrefix(s, t); }
    assert (s + t)[n..] == s[n..] + t;
    ReadPayloadPrefix(tag % 8, s[n..], t);
  }

  /** Reading two encodings laid end to end reads the one and then the other. */
  lemma {:induction false} FieldsOfConcatenation(a: Bytes, b: Bytes)
    requires Fields(a).Some?
    ensures Fields(b).None? ==> Fields(a + b).None?
    ensures Fields(b).Some? ==> Fields(a + b) == Some(Fields(a).value + Fields(b).value)
    decreases |a|
  {
    hide ReadField, ReadTag, ReadPayload, Representable;
    if a == [] {
      assert a + b == b;
      assert Fields(b).Some? ==> [] + Fields(b).value == Fields(b).value;
    } else {
      var (f, n) := ReadField(a).value;
      ReadFieldPrefix(a, b);
      assert (a + b)[n..] == a[n..] + b;
      FieldsOfConcatenation(a[n..], b);
      if Fields(b).Some? {
        assert [f] + (Fields(a[n..]).value + Fields(b).value) == Fields(a).value + Fields(b).value;
      }
    }
  }

  lemma {:induction false} FieldsAreRepresentable(s: Bytes)
    requires Fields(s).Some?
    ensures forall f :: f in Fields(s).value ==> Representable(f)
    decreases |s|
  {
    if s != [] {
      FieldsAreRepresentable(s[ReadField(s).value.1..]);
    }
  }

  // ----- encodings of several fields -----

  lemma OneFieldEncoded(f: Field)
    ensures EncodeFields([f]) == EncodeField(f)
  {
    assert [f][1..] == [];
    assert EncodeFields([f]) == EncodeField(f) + EncodeFields([]);
  }

  lemma {:induction false} EncodeFieldsConcatenation(a: seq<Field>, b: seq<Field>)
    ensures EncodeFields(a + b) == EncodeFields(a) + EncodeFields(b)
  {
    if a == [] {
      assert a + b == b;
    } else {
      assert (a + b)[1..] == a[1..] + b;
      EncodeFieldsConcatenation(a[1..], b);
    }
  }

  /** Under the 2 GB limit on a whole message every record in it is short enough. */
  lemma {:induction false} SmallMessageIsRepresentable(fs: seq<Field>)
    requires forall f :: f in fs ==> Shaped(f)
    requires |EncodeFields(fs)| < TWO31
    ensures forall f :: f in fs ==> Representable(f)
  {
    if fs != [] {
      assert fs == [fs[0]] + fs[1..];
      SmallMessageIsRepresentable(fs[1..]);
    }
  }
}
