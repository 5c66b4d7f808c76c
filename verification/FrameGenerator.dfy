/** The frame builder: fixed layout, big-endian length and sequence number, trailing 16-bit sum. */
module FrameGenerator {
  import opened Machine
  import opened Deframer

  const FRAME_SIZE: nat := 30
  const RANDOM_SIZE: nat := 14
  const MAGIC: Bytes := [0xf8, 0xf4, 0xf2, 0x11]

  /** The `unsigned short` sum of the bytes. */
  function Sum16(s: Bytes): (r: uint16) {
    if s == [] then 0 else (Sum16(s[..|s| - 1]) + s[|s| - 1]) % TWO16
  }

  /** A frame of `generate_data` with the given sequence number and random payload. */
  function Frame(seqNo: uint16, random: Bytes): (f: Bytes)
    requires |random| == RANDOM_SIZE
    ensures |f| == FRAME_SIZE
  {
    var body := Body(seqNo, random);
    body + [Sum16(body) / 256, Sum16(body) % 256]
  }

  /** Everything before the checksum. */
  function Body(seqNo: uint16, random: Bytes): (b: Bytes)
    requires |random| == RANDOM_SIZE
    ensures |b| == FRAME_SIZE - 2
  {
    MAGIC + [0, 30, seqNo / 256, seqNo % 256] + random + [0x00, 0x1d, 0x62, 0xd8, 0xa5, 0x5a]
  }

  /** The frames of successive sequence numbers, which wrap at 2^16. */
  function Frames16(seqNo: uint16, randoms: seq<Bytes>): (fs: seq<Bytes>)
    requires forall r :: r in randoms ==> |r| == RANDOM_SIZE
    ensures |fs| == |randoms|
    decreases |randoms|
  {
    if randoms == [] then [] else [Frame(seqNo, randoms[0])] + Frames16((seqNo + 1) % TWO16, randoms[1..])
  }

  // ----- what that comes to -----

  lemma AddModulo(p: int, q: int, x: int)
    ensures ((p + q) % 0x1_0000 + x) % 0x1_0000 == (p + (q + x) % 0x1_0000) % 0x1_0000
    ensures ((p + q) % 0x1_0000 + x) % 0x1_0000 == (p + q + x) % 0x1_0000
  {
  }

  lemma Sum16Last(s: Bytes, x: uint8)
    ensures Sum16(s + [x]) == (Sum16(s) as int + x as int) % 0x1_0000
  {
    assert (s + [x])[..|s|] == s;
  }

  /** The sum of the bytes, modulo 2^16. */
  lemma {:induction false} Sum16Append(a: Bytes, b: Bytes)
    ensures Sum16(a + b) == (Sum16(a) as int + Sum16(b) as int) % 0x1_0000
    decreases |b|
  {
    hide Sum16;
    if b == [] {
      assert a + b == a;
      Sum16Small(0);
    } else {
      var k := |b| - 1;
      var b', x := b[..k], b[k];
      assert b == b' + [x] && a + b == (a + b') + [x];
      Sum16Append(a, b');
      Sum16Last(a + b', x);
      Sum16Last(b', x);
      AddModulo(Sum16(a), Sum16(b'), x);
    }
  }

  lemma Sum16Small(x: uint8)
    ensures Sum16([]) == 0 && Sum16([x]) == x
  {
    assert [x][..0] == [];
  }

  /** The layout, byte by byte. */
  lemma FrameBytes(seqNo: uint16, random: Bytes)
    requires |random| == RANDOM_SIZE
    ensures var f := Frame(seqNo, random);
            && f[0] == 0xf8 && f[1] == 0xf4 && f[2] == 0xf2 && f[3] == 0x11
            && f[4] == 0 && f[5] == 30
            && f[6] == seqNo / 256 && f[7] == seqNo % 256
            && f[8..22] == random
            && f[22..28] == [0x00, 0x1d, 0x62, 0xd8, 0xa5, 0x5a]
            && f[28] as int * 256 + f[29] as int == Sum16(f[..28])
  {
    hide Sum16;
    var f, body := Frame(seqNo, random), Body(seqNo, random);
    assert f[..28] == body;
    assert f[28] == Sum16(body) / 256 && f[29] == Sum16(body) % 256;
    assert f[8..22] == random;
  }

  /** The i-th frame carries the i-th payload and the sequence number i further on. */
  lemma {:induction false} Frames16At(seqNo: uint16, randoms: seq<Bytes>, i: nat)
    requires i < |randoms| && forall r :: r in randoms ==> |r| == RANDOM_SIZE
    ensures Frames16(seqNo, randoms)[i] == Frame((seqNo as int + i) % 0x1_0000, randoms[i])
    decreases |randoms|
  {
    hide Frame;
    if i > 0 {
      Frames16At((seqNo + 1) % TWO16, randoms[1..], i - 1);
      AddModulo(seqNo, 1, i - 1);
    }
  }

  // ----- the program -----

  /** `fill_check_sum`: sums the first bytes and appends the sum, high byte first. */
  method FillCheckSum(buff: array<uint8>, packLength: nat) returns (newLength: nat)
    requires packLength + 2 <= buff.Length
    modifies buff
    ensures newLength == packLength + 2
    ensures buff[..packLength] == old(buff[..packLength])
    ensures var sum := Sum16(old(buff[..packLength])); buff[packLength..newLength] == [sum / 256, sum % 256]
    ensures buff[newLength..] == old(buff[newLength..])
  {
    var sum: uint16 := 0;
    for i := 0 to packLength
      invariant sum == Sum16(buff[..i])
    {
      assert buff[..i + 1][..i] == buff[..i];
      sum := (sum + buff[i]) % TWO16;
    }
    buff[packLength] := sum / 256 % 256;
    buff[packLength + 1] := sum % 256;
    newLength := packLength + 2;
  }

  /** Writes successive bytes at a moving index. */
  method PutBytes(buff: array<uint8>, at: nat, bytes: Bytes) returns (index: nat)
    requires at + |bytes| <= buff.Length
    modifies buff
    ensures index == at + |bytes|
    ensures buff[..index] == old(buff[..at]) + bytes
  {
    index := at;
    ghost var before := buff[..at];
    while index < at + |bytes|
      invariant at <= index <= at + |bytes|
      invariant buff[..index] == before + bytes[..index - at]
    {
      buff[index] := bytes[index - at];
      assert buff[..index + 1] == buff[..index] + [bytes[index - at]];
      index := index + 1;
    }
  }

  /** One turn of the loop in `main`, given the fourteen bytes read from the random device. */
  method BuildFrame(seqNo: uint16, random: Bytes) returns (buff: array<uint8>)
    requires |random| == RANDOM_SIZE
    ensures fresh(buff) && buff.Length == FRAME_SIZE && buff[..] == Frame(seqNo, random)
  {
    hide Sum16;
    buff := new uint8[FRAME_SIZE](_ => 0);
    var packLen: uint16 := 30;
    var index := PutBytes(buff, 0, [0xf8, 0xf4, 0xf2, 0x11]);
    index := PutBytes(buff, index, [packLen / 256 % 256, packLen % 256, seqNo / 256 % 256, seqNo % 256]);
    index := PutBytes(buff, index, random);
    index := PutBytes(buff, index, [0x00, 0x1d, 0x62, 0xd8, 0xa5, 0x5a]);
    assert buff[..28] == Body(seqNo, random);
    index := FillCheckSum(buff, index);
    assert buff[..] == buff[..28] + buff[28..30];
  }

  lemma Frames16Step(seqNo: uint16, randoms: seq<Bytes>, i: nat)
    requires i < |randoms| && forall r :: r in randoms ==> |r| == RANDOM_SIZE
    ensures Frames16(seqNo, randoms[i..]) == [Frame(seqNo, randoms[i])] + Frames16((seqNo + 1) % TWO16, randoms[i + 1..])
  {
    hide Frame;
    assert randoms[i..][1..] == randoms[i + 1..];
  }

  /** The loop of `main`: a frame for each payload, the sequence number counting on as an `unsigned short`. */
  method Generate(first: uint16, randoms: seq<Bytes>) returns (frames: seq<Bytes>)
    requires forall r :: r in randoms ==> |r| == RANDOM_SIZE
    ensures frames == Frames16(first, randoms)
  {
    hide Frame, Frames16;
    frames := [];
    var seqNo: uint16 := first;
    for i := 0 to |randoms|
      invariant Frames16(first, randoms) == frames + Frames16(seqNo, randoms[i..])
    {
      var buff := BuildFrame(seqNo, randoms[i]);
      Frames16Step(seqNo, randoms, i);
      frames := frames + [buff[..]];
      seqNo := (seqNo + 1) % TWO16;
    }
    assert frames + Frames16(seqNo, []) == frames;
  }

  // ----- generator and deframer -----

  /** The header check, length field and checksum a receiver of these frames uses. */
  function GeneratedFormat(headLen: nat, minLen: nat, maxSize: nat): Format {
    Format(headLen, minLen, maxSize, IsGeneratedHeader, GeneratedLength, CheckSumMatches)
  }

  predicate IsGeneratedHeader(h: Bytes) {
    |h| >= 4 && h[..4] == MAGIC
  }

  function GeneratedLength(h: Bytes): nat {
    if |h| < 6 then 0 else h[4] as int * 256 + h[5] as int
  }

  /** Recomputes the sum of everything before the last two bytes. */
  predicate CheckSumMatches(f: Bytes) {
    && |f| >= 2
    && f[|f| - 2] as int * 256 + f[|f| - 1] as int == Sum16(f[..|f| - 2])
  }

  lemma FrameRecognised(headLen: nat, minLen: nat, maxSize: nat, seqNo: uint16, random: Bytes)
    requires 6 <= headLen < FRAME_SIZE && minLen <= FRAME_SIZE <= maxSize && |random| == RANDOM_SIZE
    ensures Recognised(GeneratedFormat(headLen, minLen, maxSize), Frame(seqNo, random))
  {
    hide Sum16;
    var f, body := Frame(seqNo, random), Body(seqNo, random);
    assert f[..28] == body;
    var h := f[..headLen];
    assert h[..4] == MAGIC;
    assert h[4] == 0 && h[5] == 30;
    var sum: nat := Sum16(body);
    assert sum / 256 * 256 + sum % 256 == sum;
  }

  lemma {:induction false} FramesRecognised(headLen: nat, minLen: nat, maxSize: nat, seqNo: uint16, randoms: seq<Bytes>)
    requires 6 <= headLen < FRAME_SIZE && minLen <= FRAME_SIZE <= maxSize
    requires forall r :: r in randoms ==> |r| == RANDOM_SIZE
    ensures forall f :: f in Frames16(seqNo, randoms) ==> Recognised(GeneratedFormat(headLen, minLen, maxSize), f)
    decreases |randoms|
  {
    hide Recognised, Frame, GeneratedFormat;
    if randoms != [] {
      FrameRecognised(headLen, minLen, maxSize, seqNo, randoms[0]);
      FramesRecognised(headLen, minLen, maxSize, (seqNo + 1) % TWO16, randoms[1..]);
    }
  }

  /**
   Whatever the generator emits, in whatever pieces it arrives, comes out of an initially empty
   receiver frame by frame: each once, in order, nothing dropped and nothing kept.
   */
  lemma GeneratedFramesArrive(headLen: nat, minLen: nat, maxSize: nat, first: uint16, randoms: seq<Bytes>, chunks: seq<Bytes>)
    requires 6 <= headLen < FRAME_SIZE && 0 < minLen <= FRAME_SIZE <= maxSize
    requires forall r :: r in randoms ==> |r| == RANDOM_SIZE
    requires Concat(chunks) == Concat(Frames16(first, randoms))
    ensures Receive(GeneratedFormat(headLen, minLen, maxSize), [], chunks) == (AllDelivered(Frames16(first, randoms)), [])
  {
    hide Recognised, Receive;
    var fmt, frames := GeneratedFormat(headLen, minLen, maxSize), Frames16(first, randoms);
    FramesRecognised(headLen, minLen, maxSize, first, randoms);
    ReceiveIsDeframe(fmt, [], chunks);
    FramesAreDelivered(fmt, frames, []);
    assert [] + Concat(chunks) == Concat(frames) + [];
    assert Deframe(fmt, []) == ([], []);
    assert AllDelivered(frames) + [] == AllDelivered(frames);
  }

  // ----- resynchronisation -----

  /** The first bytes of a frame occur nowhere in the noise. */
  ghost predicate MagicFree(noise: Bytes) {
    forall i: nat :: !MagicAt(noise, i)
  }

  predicate MagicAt(s: Bytes, i: nat) {
    i + 4 <= |s| && s[i..i + 4] == MAGIC
  }

  /** Wherever a frame seems to begin in the noise its length is out of limits, or it ends within the noise with a bad checksum. */
  ghost predicate Harmless(minLen: nat, maxSize: nat, noise: Bytes) {
    forall i: nat :: MagicAt(noise, i) ==> NotAFrame(minLen, maxSize, noise, i)
  }

  predicate NotAFrame(minLen: nat, maxSize: nat, noise: Bytes, i: nat) {
    && i + 6 <= |noise|
    && var n := noise[i + 4] as int * 256 + noise[i + 5] as int;
       n < minLen || n > maxSize || (i + n <= |noise| && !CheckSumMatches(noise[i..i + n]))
  }

  /** Some noise, and the payload of the frame that follows it. */
  datatype Part = Part(noise: Bytes, random: Bytes)

  predicate HasPayloads(parts: seq<Part>) {
    forall p :: p in parts ==> |p.random| == RANDOM_SIZE
  }

  ghost predicate AllHarmless(minLen: nat, maxSize: nat, parts: seq<Part>) {
    forall p :: p in parts ==> Harmless(minLen, maxSize, p.noise)
  }

  /** Frames of successive sequence numbers with noise before each of them. */
  ghost function NoisyStream(seqNo: uint16, parts: seq<Part>): Bytes
    requires HasPayloads(parts)
    decreases |parts|
  {
    if parts == [] then []
    else parts[0].noise + (Frame(seqNo, parts[0].random) + NoisyStream((seqNo + 1) % TWO16, parts[1..]))
  }

  ghost function NoisyEvents(seqNo: uint16, parts: seq<Part>): seq<Event>
    requires HasPayloads(parts)
    decreases |parts|
  {
    if parts == [] then []
    else
      AllDropped(parts[0].noise)
      + ([Delivered(Frame(seqNo, parts[0].random))] + NoisyEvents((seqNo + 1) % TWO16, parts[1..]))
  }

  function Payloads(parts: seq<Part>): (randoms: seq<Bytes>)
    ensures |randoms| == |parts|
    ensures forall i :: 0 <= i < |parts| ==> randoms[i] == parts[i].random
  {
    seq(|parts|, i requires 0 <= i < |parts| => parts[i].random)
  }

  /** A frame that seems to begin in the noise has its first bytes there: none runs on into the frame after it. */
  lemma MagicWithinNoise(noise: Bytes, tail: Bytes, i: nat)
    requires i < |noise| && MAGIC <= tail
    ensures (noise[i..] + tail)[..4] == MAGIC ==> MagicAt(noise, i)
  {
    var w := (noise[i..] + tail)[..4];
    if i + 4 <= |noise| {
      assert w == noise[i..i + 4];
    } else {
      var k := |noise| - i;
      assert w[k] == tail[0] == MAGIC[0];
      assert MAGIC[k] != MAGIC[0];
    }
  }

  lemma NoiseDropped(fmt: Format, noise: Bytes, tail: Bytes)
    requires fmt == GeneratedFormat(fmt.headLen, fmt.minLen, fmt.maxSize) && 6 <= fmt.headLen <= |tail|
    requires Harmless(fmt.minLen, fmt.maxSize, noise) && MAGIC <= tail
    ensures forall i :: 0 <= i < |noise| ==> Decide(fmt, noise[i..] + tail) == Drop
  {
    forall i | 0 <= i < |noise| ensures Decide(fmt, noise[i..] + tail) == Drop {
      DroppedAt(fmt, noise, tail, i);
    }
  }

  lemma DroppedAt(fmt: Format, noise: Bytes, tail: Bytes, i: nat)
    requires fmt == GeneratedFormat(fmt.headLen, fmt.minLen, fmt.maxSize) && 6 <= fmt.headLen <= |tail|
    requires Harmless(fmt.minLen, fmt.maxSize, noise) && MAGIC <= tail && i < |noise|
    ensures Decide(fmt, noise[i..] + tail) == Drop
  {
    hide CheckSumMatches;
    var q := noise[i..] + tail;
    var h := q[..fmt.headLen];
    assert h[..4] == q[..4];
    MagicWithinNoise(noise, tail, i);
    if q[..4] == MAGIC {
      assert NotAFrame(fmt.minLen, fmt.maxSize, noise, i);
      assert h[4] == noise[i + 4] && h[5] == noise[i + 5];
      var n := GeneratedLength(h);
      if fmt.minLen <= n <= fmt.maxSize {
        assert q[..n] == noise[i..i + n];
      }
    }
  }

  // ----- kinds of harmless noise -----

  lemma MagicFreeIsHarmless(minLen: nat, maxSize: nat, noise: Bytes)
    requires MagicFree(noise)
    ensures Harmless(minLen, maxSize, noise)
  {
  }

  /** A frame whose checksum does not match and in which no other seems to begin. */
  lemma CorruptedIsHarmless(minLen: nat, maxSize: nat, f: Bytes)
    requires |f| == FRAME_SIZE && MAGIC <= f && f[4] == 0 && f[5] == 30
    requires !CheckSumMatches(f) && MagicFree(f[1..])
    ensures Harmless(minLen, maxSize, f)
  {
    hide CheckSumMatches;
    forall i: nat ensures MagicAt(f, i) ==> NotAFrame(minLen, maxSize, f, i) {
      if i == 0 {
        assert f[0..30] == f;
      } else {
        assert !MagicAt(f[1..], i - 1);
        if i + 4 <= |f| {
          assert f[1..][i - 1..i + 3] == f[i..i + 4];
        }
      }
    }
  }

  /** A change of any one byte after the length field is noticed by the checksum. */
  lemma OneByteIsNoticed(seqNo: uint16, random: Bytes, k: nat, x: uint8)
    requires |random| == RANDOM_SIZE && k < FRAME_SIZE && x != Frame(seqNo, random)[k]
    ensures !CheckSumMatches(Frame(seqNo, random)[k := x])
  {
    hide Sum16, Frame;
    var f := Frame(seqNo, random);
    var g := f[k := x];
    FrameBytes(seqNo, random);
    if k < 28 {
      assert f[..28] == f[..k] + [f[k]] + f[k + 1..28];
      assert g[..28] == f[..k] + [x] + f[k + 1..28];
      SumOfThree(f[..k], f[k], f[k + 1..28]);
      SumOfThree(f[..k], x, f[k + 1..28]);
    } else {
      assert g[..28] == f[..28];
    }
  }

  lemma SumOfThree(a: Bytes, x: uint8, b: Bytes)
    ensures Sum16(a + [x] + b) == (Sum16(a) as int + x as int + Sum16(b) as int) % 0x1_0000
  {
    hide Sum16;
    Sum16Append(a + [x], b);
    Sum16Append(a, [x]);
    Sum16Small(x);
  }

  lemma {:induction false} NoisyStreamDeframes(fmt: Format, seqNo: uint16, parts: seq<Part>)
    requires HasPayloads(parts) && AllHarmless(fmt.minLen, fmt.maxSize, parts)
    requires 0 < fmt.minLen <= FRAME_SIZE <= fmt.maxSize && 6 <= fmt.headLen < FRAME_SIZE
    requires fmt == GeneratedFormat(fmt.headLen, fmt.minLen, fmt.maxSize)
    ensures Deframe(fmt, NoisyStream(seqNo, parts)) == (NoisyEvents(seqNo, parts), [])
    decreases |parts|
  {
    hide Decide, Deframe, Frame, Harmless, Recognised;
    if parts == [] {
      EmptyQueue(fmt);
    } else {
      var p := parts[0];
      var f := Frame(seqNo, p.random);
      var next := (seqNo + 1) % TWO16;
      var rest := NoisyStream(next, parts[1..]);
      FrameRecognised(fmt.headLen, fmt.minLen, fmt.maxSize, seqNo, p.random);
      FrameStarts(seqNo, p.random);
      NoisyStreamDeframes(fmt, next, parts[1..]);
      FramesAreDelivered(fmt, [f], rest);
      OneFrame(f);
      NoiseDropped(fmt, p.noise, f + rest);
      NoiseIsDropped(fmt, p.noise, f + rest);
    }
  }

  lemma EmptyQueue(fmt: Format)
    requires Progresses(fmt)
    ensures Deframe(fmt, []) == ([], [])
  {
  }

  lemma FrameStarts(seqNo: uint16, random: Bytes)
    requires |random| == RANDOM_SIZE
    ensures MAGIC <= Frame(seqNo, random)
  {
  }

  lemma OneFrame(f: Bytes)
    ensures Concat([f]) == f && AllDelivered([f]) == [Delivered(f)]
  {
    assert Concat([f]) == f + Concat([f][1..]);
    assert AllDelivered([f]) == [Delivered(f)] + AllDelivered([f][1..]);
  }

  /**
   Resynchronisation: whatever harmless noise lies before and between the generated frames,
   damaged frames included, and in whatever pieces the bytes arrive, the noise is dropped and
   every frame is delivered, in order, with nothing kept.
   */
  lemma NoisyFramesArrive(headLen: nat, minLen: nat, maxSize: nat, first: uint16, parts: seq<Part>, chunks: seq<Bytes>)
    requires 6 <= headLen < FRAME_SIZE && 0 < minLen <= FRAME_SIZE <= maxSize
    requires HasPayloads(parts) && AllHarmless(minLen, maxSize, parts) && Concat(chunks) == NoisyStream(first, parts)
    ensures Receive(GeneratedFormat(headLen, minLen, maxSize), [], chunks) == (NoisyEvents(first, parts), [])
    ensures Frames(NoisyEvents(first, parts)) == Frames16(first, Payloads(parts))
  {
    hide Receive, Deframe;
    var fmt := GeneratedFormat(headLen, minLen, maxSize);
    ReceiveIsDeframe(fmt, [], chunks);
    assert [] + Concat(chunks) == Concat(chunks);
    NoisyStreamDeframes(fmt, first, parts);
    NoisyFrames(first, parts);
  }

  /** The frames among the events are the generated ones. */
  lemma {:induction false} NoisyFrames(seqNo: uint16, parts: seq<Part>)
    requires HasPayloads(parts)
    ensures Frames(NoisyEvents(seqNo, parts)) == Frames16(seqNo, Payloads(parts))
    decreases |parts|
  {
    hide Frame;
    if parts != [] {
      var p := parts[0];
      var next := (seqNo + 1) % TWO16;
      var later := NoisyEvents(next, parts[1..]);
      var e := Delivered(Frame(seqNo, p.random));
      NoisyFrames(next, parts[1..]);
      FramesAfterNoise(p.noise, [e] + later);
      assert ([e] + later)[1..] == later;
      assert Payloads(parts)[1..] == Payloads(parts[1..]);
    }
  }

  lemma {:induction false} FramesAfterNoise(noise: Bytes, later: seq<Event>)
    ensures Frames(AllDropped(noise) + later) == Frames(later)
    decreases |noise|
  {
    if noise == [] {
      assert [] + later == later;
    } else {
      var es := AllDropped(noise[1..]);
      assert ([Dropped(noise[0])] + es + later)[1..] == es + later;
      FramesAfterNoise(noise[1..], later);
    }
  }

  /** Noise, then frames: the case of a receiver that joins late. */
  lemma FramesArriveAfterNoise(headLen: nat, minLen: nat, maxSize: nat, noise: Bytes, first: uint16,
                               randoms: seq<Bytes>, chunks: seq<Bytes>)
    requires 6 <= headLen < FRAME_SIZE && 0 < minLen <= FRAME_SIZE <= maxSize
    requires Harmless(minLen, maxSize, noise) && randoms != [] && forall r :: r in randoms ==> |r| == RANDOM_SIZE
    requires Concat(chunks) == noise + Concat(Frames16(first, randoms))
    ensures Receive(GeneratedFormat(headLen, minLen, maxSize), [], chunks) ==
            (AllDropped(noise) + AllDelivered(Frames16(first, randoms)), [])
  {
    hide Receive, Deframe, Decide, Frame, Harmless, Recognised;
    var fmt, frames := GeneratedFormat(headLen, minLen, maxSize), Frames16(first, randoms);
    var tail := Concat(frames);
    ReceiveIsDeframe(fmt, [], chunks) by {
      EmptyQueueWaits(fmt);
    }
    assert [] + Concat(chunks) == noise + tail;
    FramesRecognised(headLen, minLen, maxSize, first, randoms);
    FramesAreDelivered(fmt, frames, []);
    assert tail + [] == tail && AllDelivered(frames) + [] == AllDelivered(frames);
    EmptyQueue(fmt);
    FrameStarts(first, randoms[0]);
    assert frames[0] == Frame(first, randoms[0]);
    NoiseDropped(fmt, noise, tail);
    NoiseIsDropped(fmt, noise, tail);
  }

  /** A frame damaged in one byte after its length field, with no other beginning in it, costs no frame but itself. */
  lemma DamagedFrameCostsNoOther(headLen: nat, minLen: nat, maxSize: nat, seqNo: uint16, random: Bytes, k: nat, x: uint8,
                                 first: uint16, randoms: seq<Bytes>, chunks: seq<Bytes>)
    requires 6 <= headLen < FRAME_SIZE && 0 < minLen <= FRAME_SIZE <= maxSize
    requires |random| == RANDOM_SIZE && randoms != [] && forall r :: r in randoms ==> |r| == RANDOM_SIZE
    requires 6 <= k < FRAME_SIZE && x != Frame(seqNo, random)[k] && MagicFree(Frame(seqNo, random)[k := x][1..])
    requires Concat(chunks) == Frame(seqNo, random)[k := x] + Concat(Frames16(first, randoms))
    ensures Receive(GeneratedFormat(headLen, minLen, maxSize), [], chunks) ==
            (AllDropped(Frame(seqNo, random)[k := x]) + AllDelivered(Frames16(first, randoms)), [])
  {
    hide Receive, Frame, Harmless, MagicFree, CheckSumMatches;
    var damaged := Frame(seqNo, random)[k := x];
    FrameBytes(seqNo, random);
    FrameStarts(seqNo, random);
    OneByteIsNoticed(seqNo, random, k, x);
    CorruptedIsHarmless(minLen, maxSize, damaged);
    FramesArriveAfterNoise(headLen, minLen, maxSize, damaged, first, randoms, chunks);
  }

  lemma EmptyQueueWaits(fmt: Format)
    ensures Decide(fmt, []) == Wait
  {
  }
}
