/** The fields of a UUID and their 16-byte layout (RFC 4122, section 4.1.2). */
module UuidLayout {
  import opened Machine
  import BE = BigEndian

  datatype Uuid = Uuid(
    timeLow: uint32,
    timeMid: uint16,
    timeHiAndVersion: uint16,
    clockSeq: uint16,
    node: Bytes
  )

  predicate HasNode(u: Uuid) {
    |u.node| == 6
  }

  function Packed(u: Uuid): (s: Bytes)
    requires HasNode(u)
    ensures |s| == 16
  {
    BE.FromNat(u.timeLow, 4) + (BE.FromNat(u.timeMid, 2) + (BE.FromNat(u.timeHiAndVersion, 2)
    + (BE.FromNat(u.clockSeq, 2) + u.node)))
  }

  /** A field of at most four bytes, big-endian. */
  function Number(s: Bytes): (v: uint32)
    requires |s| <= 4
    ensures v == BE.ToNat(s)
    ensures |s| <= 2 ==> v < TWO16
  {
    BE.ToNatBound(s);
    assert BE.Pow256(2) == 0x1_0000 && BE.Pow256(1) == 0x100;
    assert BE.Pow256(3) == 0x100_0000 && BE.Pow256(4) == 0x1_0000_0000;
    BE.ToNat(s)
  }

  function Unpacked(s: Bytes): (u: Uuid)
    requires |s| == 16
    ensures HasNode(u)
  {
    Uuid(Number(s[..4]), Number(s[4..6]), Number(s[6..8]), Number(s[8..10]), s[10..])
  }

  lemma UnpackedPacked(u: Uuid)
    requires HasNode(u)
    ensures Unpacked(Packed(u)) == u
  {
    var s := Packed(u);
    assert BE.Pow256(2) == 0x1_0000 && BE.Pow256(4) == 0x1_0000_0000 by {
      assert BE.Pow256(1) == 0x100 && BE.Pow256(3) == 0x100_0000;
    }
    BE.ToNatFromNat(u.timeLow, 4);
    BE.ToNatFromNat(u.timeMid, 2);
    BE.ToNatFromNat(u.timeHiAndVersion, 2);
    BE.ToNatFromNat(u.clockSeq, 2);
    hide BE.FromNat, BE.ToNat;
    assert s[..4] == BE.FromNat(u.timeLow, 4);
    assert s[4..6] == BE.FromNat(u.timeMid, 2);
    assert s[6..8] == BE.FromNat(u.timeHiAndVersion, 2);
    assert s[8..10] == BE.FromNat(u.clockSeq, 2);
    assert s[10..] == u.node;
  }

  lemma PackedUnpacked(s: Bytes)
    requires |s| == 16
    ensures Packed(Unpacked(s)) == s
  {
    BE.FromNatToNat(s[..4]);
    BE.FromNatToNat(s[4..6]);
    BE.FromNatToNat(s[6..8]);
    BE.FromNatToNat(s[8..10]);
  }

  // ----- the bytes -----

  /** The layout, byte by byte: each field with its high byte first. */
  lemma PackedBytes(u: Uuid)
    requires HasNode(u)
    ensures Packed(u) ==
            [u.timeLow / 0x100_0000, u.timeLow / 0x1_0000 % 0x100, u.timeLow / 0x100 % 0x100, u.timeLow % 0x100,
             u.timeMid / 0x100, u.timeMid % 0x100,
             u.timeHiAndVersion / 0x100, u.timeHiAndVersion % 0x100,
             u.clockSeq / 0x100, u.clockSeq % 0x100] + u.node
  {
    hide BE.FromNat;
    FourBytes(u.timeLow);
    TwoBytes(u.timeMid);
    TwoBytes(u.timeHiAndVersion);
    TwoBytes(u.clockSeq);
  }

  lemma TwoBytes(v: uint16)
    ensures BE.FromNat(v, 2) == [v / 0x100, v % 0x100]
  {
    assert BE.FromNat(v / 256, 1) == BE.FromNat(v / 256 / 256, 0) + [v / 256 % 256];
  }

  lemma FourBytes(v: uint32)
    ensures BE.FromNat(v, 4) == [v / 0x100_0000, v / 0x1_0000 % 0x100, v / 0x100 % 0x100, v % 0x100]
  {
    assert BE.FromNat(v, 4) == BE.FromNat(v / 256, 3) + [v % 256];
    assert BE.FromNat(v / 256, 3) == BE.FromNat(v / 256 / 256, 2) + [v / 256 % 256];
    assert BE.FromNat(v / 256 / 256, 2) == BE.FromNat(v / 256 / 256 / 256, 1) + [v / 256 / 256 % 256];
    assert BE.FromNat(v / 256 / 256 / 256, 1) == BE.FromNat(v / 256 / 256 / 256 / 256, 0) + [v / 256 / 256 / 256 % 256];
  }

  /** The fields in terms of the bytes. */
  lemma UnpackedBytes(s: Bytes)
    requires |s| == 16
    ensures var u := Unpacked(s);
            && u.timeLow == s[0] as int * 0x100_0000 + s[1] as int * 0x1_0000 + s[2] as int * 0x100 + s[3] as int
            && u.timeMid == s[4] as int * 0x100 + s[5] as int
            && u.timeHiAndVersion == s[6] as int * 0x100 + s[7] as int
            && u.clockSeq == s[8] as int * 0x100 + s[9] as int
            && u.node == s[10..]
  {
    TwoByteNumber(s[4..6]);
    TwoByteNumber(s[6..8]);
    TwoByteNumber(s[8..10]);
    FourByteNumber(s[..4]);
  }

  lemma TwoByteNumber(s: Bytes)
    requires |s| == 2
    ensures BE.ToNat(s) == s[0] as int * 0x100 + s[1] as int
  {
    assert s[..1][..0] == [];
    assert BE.ToNat(s[..1]) == BE.ToNat([]) * 256 + s[0] as int;
  }

  lemma FourByteNumber(s: Bytes)
    requires |s| == 4
    ensures BE.ToNat(s) == s[0] as int * 0x100_0000 + s[1] as int * 0x1_0000 + s[2] as int * 0x100 + s[3] as int
  {
    assert s[..3][..2] == s[..2];
    TwoByteNumber(s[..2]);
    assert BE.ToNat(s[..3]) == BE.ToNat(s[..2]) * 256 + s[2] as int;
  }

  /** Writes a number into `n` bytes from the last one back, shifting it right as it goes. */
  method PutNumber(out: array<uint8>, at: nat, n: nat, v: nat)
    requires at + n <= out.Length
    modifies out
    ensures out[..at + n] == old(out[..at]) + BE.FromNat(v, n)
    ensures out[at + n..] == old(out[at + n..])
  {
    var tmp := v;
    ghost var was := out[..];
    var i := n;
    while i > 0
      invariant 0 <= i <= n
      invariant out[..at + i] == was[..at + i]
      invariant out[at + n..] == was[at + n..]
      invariant BE.FromNat(tmp, i) + out[at + i..at + n] == BE.FromNat(v, n)
    {
      i := i - 1;
      out[at + i] := tmp % 256;
      ghost var rest := out[at + i + 1..at + n];
      assert out[at + i..at + n] == [tmp % 256] + rest;
      assert BE.FromNat(tmp, i + 1) + rest == BE.FromNat(tmp / 256, i) + ([tmp % 256] + rest);
      assert out[..at + i] == was[..at + i];
      tmp := tmp / 256;
    }
    assert out[..at + n] == out[..at] + out[at..at + n];
    assert out[at..at + n] == BE.FromNat(v, n);
  }

  /** `uuid_pack` */
  method UuidPack(uu: Uuid, out: array<uint8>)
    requires HasNode(uu) && out.Length == 16
    modifies out
    ensures out[..] == Packed(uu)
  {
    hide BE.FromNat;
    ghost var low, mid := BE.FromNat(uu.timeLow, 4), BE.FromNat(uu.timeMid, 2);
    ghost var hi, seqs := BE.FromNat(uu.timeHiAndVersion, 2), BE.FromNat(uu.clockSeq, 2);
    PutNumber(out, 0, 4, uu.timeLow);
    PutNumber(out, 4, 2, uu.timeMid);
    PutNumber(out, 6, 2, uu.timeHiAndVersion);
    PutNumber(out, 8, 2, uu.clockSeq);
    assert out[..10] == [] + low + mid + hi + seqs;
    CopyNode(uu.node, out);
    assert [] + low + mid + hi + seqs + uu.node == low + (mid + (hi + (seqs + uu.node)));
  }

  /** `memcpy(out + 10, uu->node, 6)` */
  method CopyNode(node: Bytes, out: array<uint8>)
    requires |node| == 6 && out.Length == 16
    modifies out
    ensures out[..] == old(out[..10]) + node
  {
    ghost var head := out[..10];
    for i := 0 to 6
      invariant out[..10] == head
      invariant out[10..10 + i] == node[..i]
    {
      out[10 + i] := node[i];
      assert out[10..10 + i + 1] == out[10..10 + i] + [node[i]];
    }
  }

  /** Reads a number from `n` bytes, shifting left and adding as the pointer advances. */
  method GetNumber(bytes: array<uint8>, at: nat, n: nat) returns (tmp: nat)
    requires at + n <= bytes.Length
    ensures tmp == BE.ToNat(bytes[at..at + n])
  {
    tmp := 0;
    for i := 0 to n
      invariant tmp == BE.ToNat(bytes[at..at + i])
    {
      assert bytes[at..at + i + 1][..i] == bytes[at..at + i];
      tmp := tmp * 256 + bytes[at + i];
    }
  }

  /** `uuid_unpack` */
  method UuidUnpack(bytes: array<uint8>) returns (uu: Uuid)
    requires bytes.Length == 16
    ensures uu == Unpacked(bytes[..])
  {
    hide BE.ToNat;
    ghost var s := bytes[..];
    var low := GetNumber(bytes, 0, 4);
    assert bytes[0..4] == s[..4] && low == Number(s[..4]);
    var mid := GetNumber(bytes, 4, 2);
    assert bytes[4..6] == s[4..6] && mid == Number(s[4..6]);
    var hi := GetNumber(bytes, 6, 2);
    assert bytes[6..8] == s[6..8] && hi == Number(s[6..8]);
    var clockSeq := GetNumber(bytes, 8, 2);
    assert bytes[8..10] == s[8..10] && clockSeq == Number(s[8..10]);
    uu := Uuid(low, mid, hi, clockSeq, bytes[10..]);
  }

  // ----- uuid_compare -----

  /** Field by field, then the node. */
  function UuidCompare(uu1: Bytes, uu2: Bytes): int
    requires |uu1| == |uu2| == 16
  {
    var a, b := Unpacked(uu1), Unpacked(uu2);
    if a.timeLow != b.timeLow then (if a.timeLow < b.timeLow then -1 else 1)
    else if a.timeMid != b.timeMid then (if a.timeMid < b.timeMid then -1 else 1)
    else if a.timeHiAndVersion != b.timeHiAndVersion then
      (if a.timeHiAndVersion < b.timeHiAndVersion then -1 else 1)
    else if a.clockSeq != b.clockSeq then (if a.clockSeq < b.clockSeq then -1 else 1)
    else BE.Compare(a.node, b.node)
  }

  /** Comparing decoded fields orders UUIDs exactly as comparing their 16 raw bytes does. */
  lemma UuidCompareIsByteOrder(uu1: Bytes, uu2: Bytes)
    requires |uu1| == |uu2| == 16
    ensures UuidCompare(uu1, uu2) == BE.Compare(uu1, uu2)
  {
    hide BE.Compare, BE.ToNat;
    BE.CompareIsNumeric(uu1[..4], uu2[..4]);
    BE.CompareIsNumeric(uu1[4..6], uu2[4..6]);
    BE.CompareIsNumeric(uu1[6..8], uu2[6..8]);
    BE.CompareIsNumeric(uu1[8..10], uu2[8..10]);
    assert uu1[..4] + uu1[4..] == uu1 && uu2[..4] + uu2[4..] == uu2;
    BE.CompareConcatenation(uu1[..4], uu2[..4], uu1[4..], uu2[4..]);
    assert uu1[4..6] + uu1[6..] == uu1[4..] && uu2[4..6] + uu2[6..] == uu2[4..];
    BE.CompareConcatenation(uu1[4..6], uu2[4..6], uu1[6..], uu2[6..]);
    assert uu1[6..8] + uu1[8..] == uu1[6..] && uu2[6..8] + uu2[8..] == uu2[6..];
    BE.CompareConcatenation(uu1[6..8], uu2[6..8], uu1[8..], uu2[8..]);
    assert uu1[8..10] + uu1[10..] == uu1[8..] && uu2[8..10] + uu2[10..] == uu2[8..];
    BE.CompareConcatenation(uu1[8..10], uu2[8..10], uu1[10..], uu2[10..]);
  }

  /** Hence `uuid_compare` is a total order whose zero is equality of the bytes. */
  lemma UuidCompareIsTotalOrder(a: Bytes, b: Bytes, c: Bytes)
    requires |a| == |b| == |c| == 16
    ensures UuidCompare(a, b) == 0 <==> a == b
    ensures UuidCompare(b, a) == -UuidCompare(a, b)
    ensures UuidCompare(a, b) <= 0 && UuidCompare(b, c) <= 0 ==> UuidCompare(a, c) <= 0
  {
    UuidCompareIsByteOrder(a, b);
    UuidCompareIsByteOrder(b, a);
    UuidCompareIsByteOrder(b, c);
    UuidCompareIsByteOrder(a, c);
    BE.CompareIsTotalOrder(a, b, c);
  }

  /** The first byte that differs decides: the smaller one makes the smaller UUID. */
  lemma FirstDifferenceDecides(uu1: Bytes, uu2: Bytes, k: nat)
    requires |uu1| == |uu2| == 16 && k < 16 && uu1[..k] == uu2[..k]
    ensures uu1[k] < uu2[k] ==> UuidCompare(uu1, uu2) == -1
    ensures uu1[k] > uu2[k] ==> UuidCompare(uu1, uu2) == 1
  {
    hide UuidCompare;
    UuidCompareIsByteOrder(uu1, uu2);
    BE.FirstDifference(uu1, uu2, k);
  }
}
