/** The text form of a UUID (RFC 4122, section 3): printing, checking and parsing it. */
module UuidText {
  import opened Wrappers
  import opened Machine
  import BE = BigEndian
  import L = UuidLayout

  /** A C string is its characters before the terminating NUL, so it holds none. */
  type CString = s: string | '\0' !in s witness ""

  // ----- hexadecimal digits -----

  /** `isxdigit` in the C locale */
  predicate IsHex(c: char) {
    '0' <= c <= '9' || 'a' <= c <= 'f' || 'A' <= c <= 'F'
  }

  function HexValue(c: char): nat
    requires IsHex(c)
  {
    if c <= '9' then c as int - '0' as int
    else if c <= 'F' then c as int - 'A' as int + 10
    else c as int - 'a' as int + 10
  }

  function HexDigit(v: nat, upper: bool): char
    requires v < 16
  {
    if v < 10 then ('0' as int + v) as char
    else if upper then ('A' as int + v - 10) as char
    else ('a' as int + v - 10) as char
  }

  function ToLower(c: char): char {
    if 'A' <= c <= 'Z' then (c as int - 'A' as int + 'a' as int) as char else c
  }

  function Lowered(s: string): string {
    seq(|s|, i requires 0 <= i < |s| => ToLower(s[i]))
  }

  /** `%0nx` or `%0nX` of a value that needs no more than `n` digits. */
  function HexNumber(v: nat, n: nat, upper: bool): (s: string)
    ensures |s| == n && forall i :: 0 <= i < n ==> IsHex(s[i])
  {
    if n == 0 then "" else HexNumber(v / 16, n - 1, upper) + [HexDigit(v % 16, upper)]
  }

  /** The value of a run of hexadecimal digits. */
  function HexRun(s: string): nat
    requires forall i :: 0 <= i < |s| ==> IsHex(s[i])
  {
    if s == "" then 0 else HexRun(s[..|s| - 1]) * 16 + HexValue(s[|s| - 1])
  }

  /** How many hexadecimal digits a string starts with. */
  function DigitCount(s: string): (n: nat)
    ensures n <= |s| && (forall i :: 0 <= i < n ==> IsHex(s[i])) && (n < |s| ==> !IsHex(s[n]))
  {
    if s == "" || !IsHex(s[0]) then 0 else 1 + DigitCount(s[1..])
  }

  /** `strtoul(s, NULL, 16)` on a string that starts with a digit: digits up to the first other character. */
  function StrToUL(s: string): nat {
    HexRun(s[..DigitCount(s)])
  }

  function Pow16(n: nat): nat {
    if n == 0 then 1 else 16 * Pow16(n - 1)
  }

  lemma {:induction false} HexRunOfNumber(v: nat, n: nat, upper: bool)
    requires v < Pow16(n)
    ensures HexRun(HexNumber(v, n, upper)) == v
  {
    if n > 0 {
      HexRunOfNumber(v / 16, n - 1, upper);
      assert HexNumber(v, n, upper)[..n - 1] == HexNumber(v / 16, n - 1, upper);
    }
  }

  lemma {:induction false} HexRunBound(s: string)
    requires forall i :: 0 <= i < |s| ==> IsHex(s[i])
    ensures HexRun(s) < Pow16(|s|)
  {
    if s != "" {
      HexRunBound(s[..|s| - 1]);
    }
  }

  lemma DigitOfValue(c: char)
    requires IsHex(c)
    ensures HexValue(c) < 16 && HexDigit(HexValue(c), false) == ToLower(c)
  {
  }

  /** Printing what was read gives the digits back in lower case. */
  lemma {:induction false} NumberOfHexRun(s: string)
    requires forall i :: 0 <= i < |s| ==> IsHex(s[i])
    ensures HexNumber(HexRun(s), |s|, false) == Lowered(s)
  {
    hide IsHex, HexValue, HexDigit, ToLower;
    if s != "" {
      var k := |s| - 1;
      DigitOfValue(s[k]);
      NumberOfHexRun(s[..k]);
      assert Lowered(s) == Lowered(s[..k]) + [ToLower(s[k])];
    }
  }

  /** The digits and their values. */
  lemma DigitsExactly(v: nat, c: char)
    requires v < 16
    ensures HexDigit(v, false) == "0123456789abcdef"[v] && HexDigit(v, true) == "0123456789ABCDEF"[v]
    ensures IsHex("0123456789abcdef"[v]) && HexValue("0123456789abcdef"[v]) == v
    ensures IsHex("0123456789ABCDEF"[v]) && HexValue("0123456789ABCDEF"[v]) == v
    ensures IsHex(c) <==> c in "0123456789abcdefABCDEF"
  {
    if IsHex(c) {
      HexIsListed(c);
    }
  }

  lemma HexIsListed(c: char)
    requires IsHex(c)
    ensures c in "0123456789abcdefABCDEF"
  {
    var s := "0123456789abcdefABCDEF";
    if c <= '9' {
      assert s[c as int - '0' as int] == c;
    } else if c <= 'F' {
      assert s[16 + c as int - 'A' as int] == c;
    } else {
      assert s[10 + c as int - 'a' as int] == c;
    }
  }

  // ----- printing -----

  /** The `sprintf` of `uuid_unparse_x` with the lower- or upper-case format. */
  function Unparsed(s: Bytes, upper: bool): (t: string)
    requires |s| == 16
    ensures |t| == 36
  {
    var u := L.Unpacked(s);
    HexNumber(u.timeLow, 8, upper) + ("-" + (HexNumber(u.timeMid, 4, upper) + ("-"
    + (HexNumber(u.timeHiAndVersion, 4, upper) + ("-" + (HexNumber(u.clockSeq / 256, 2, upper)
    + (HexNumber(u.clockSeq % 256, 2, upper) + ("-" + BytesText(u.node, upper)))))))))
  }

  function BytesText(node: Bytes, upper: bool): (t: string)
    ensures |t| == 2 * |node| && forall i :: 0 <= i < |t| ==> IsHex(t[i])
  {
    if node == [] then "" else HexNumber(node[0], 2, upper) + BytesText(node[1..], upper)
  }

  // ----- parsing -----

  predicate IsHyphenPlace(i: nat) {
    i == 8 || i == 13 || i == 18 || i == 23
  }

  /** The 8-4-4-4-12 form. */
  predicate IsUuidText(s: string) {
    |s| == 36 && forall i :: 0 <= i < 36 ==> if IsHyphenPlace(i) then s[i] == '-' else IsHex(s[i])
  }

  /** The fields the digits spell. */
  function ParsedFields(s: string): (u: L.Uuid)
    requires IsUuidText(s)
    ensures L.HasNode(u)
  {
    HexBounds(s);
    assert forall i :: 0 <= i < 12 ==> s[24..][i] == s[24 + i] && !IsHyphenPlace(24 + i);
    L.Uuid(HexRun(s[..8]), HexRun(s[9..13]), HexRun(s[14..18]), HexRun(s[19..23]), NodeBytes(s[24..]))
  }

  lemma HexBounds(s: string)
    requires IsUuidText(s)
    ensures HexRun(s[..8]) < TWO32
    ensures HexRun(s[9..13]) < TWO16 && HexRun(s[14..18]) < TWO16 && HexRun(s[19..23]) < TWO16
  {
    HexRunBound(s[..8]);
    HexRunBound(s[9..13]);
    HexRunBound(s[14..18]);
    HexRunBound(s[19..23]);
    PowersOf16();
  }

  lemma PowersOf16()
    ensures Pow16(2) == 0x100 && Pow16(4) == 0x1_0000 && Pow16(8) == 0x1_0000_0000
  {
    assert Pow16(1) == 0x10 && Pow16(3) == 0x1000;
    assert Pow16(5) == 0x10_0000 && Pow16(6) == 0x100_0000 && Pow16(7) == 0x1000_0000;
  }

  function NodeBytes(s: string): (b: Bytes)
    requires |s| % 2 == 0 && forall i :: 0 <= i < |s| ==> IsHex(s[i])
    ensures |b| == |s| / 2
    decreases |s|
  {
    if s == "" then [] else
    HexRunBound(s[..2]);
    PowersOf16();
    [HexRun(s[..2])] + NodeBytes(s[2..])
  }

  /** What `uuid_parse` does with a string: nothing, or 16 bytes. */
  function Parsed(s: CString): Option<Bytes> {
    if IsUuidText(s) then Some(L.Packed(ParsedFields(s))) else None
  }

  /** `strtoul` stops at the hyphen, or at the end of the string. */
  lemma StrToULStops(s: string, from: nat, to: nat)
    requires from < to <= |s|
    requires forall i :: from <= i < to ==> IsHex(s[i])
    requires to < |s| ==> !IsHex(s[to])
    ensures DigitCount(s[from..]) == to - from
    ensures StrToUL(s[from..]) == HexRun(s[from..to])
  {
    var t := s[from..];
    assert forall i :: 0 <= i < to - from ==> t[i] == s[from + i];
    assert to < |s| ==> t[to - from] == s[to];
    assert t[..to - from] == s[from..to];
  }

  /**
   `uuid_parse`: the length, one pass over the characters and the NUL after them, then the
   numbers.  The output is written only when the string is accepted.
   */
  method UuidParse(s: CString, uu: array<uint8>) returns (ok: bool)
    requires uu.Length == 16
    modifies uu
    ensures ok <==> IsUuidText(s)
    ensures Parsed(s) == if ok then Some(uu[..]) else None
    ensures !ok ==> uu[..] == old(uu[..])
  {
    hide ParsedFields, StrToUL, NodeBytes;
    if |s| != 36 {
      return false;
    }
    var i := 0;
    while i <= 36
      invariant 0 <= i <= 37
      invariant forall k :: 0 <= k < i && k < 36 ==> if IsHyphenPlace(k) then s[k] == '-' else IsHex(s[k])
    {
      var c := if i < 36 then s[i] else '\0';
      if i == 8 || i == 13 || i == 18 || i == 23 {
        if c != '-' {
          return false;
        }
      } else if !(i == 36 && c == '\0') {
        if !IsHex(c) {
          return false;
        }
      }
      i := i + 1;
    }
    NumbersOfText(s);
    var node := ParseNode(s[24..]);
    var fields := L.Uuid(StrToUL(s), StrToUL(s[9..]), StrToUL(s[14..]), StrToUL(s[19..]), node);
    L.UuidPack(fields, uu);
    ok := true;
  }

  /** `strtoul` from the start of each group of digits reads that group. */
  lemma NumbersOfText(s: string)
    requires IsUuidText(s)
    ensures var u := ParsedFields(s);
            && StrToUL(s) == u.timeLow && StrToUL(s[9..]) == u.timeMid
            && StrToUL(s[14..]) == u.timeHiAndVersion && StrToUL(s[19..]) == u.clockSeq
            && NodeBytes(s[24..]) == u.node
  {
    hide HexRun, DigitCount, HexValue, StrToUL;
    assert s[0..] == s && s[0..8] == s[..8];
    StrToULStops(s, 0, 8);
    StrToULStops(s, 9, 13);
    StrToULStops(s, 14, 18);
    StrToULStops(s, 19, 23);
  }

  /** The six bytes of the node, two digits at a time through a small buffer. */
  method ParseNode(cp: string) returns (node: Bytes)
    requires |cp| == 12 && forall i :: 0 <= i < 12 ==> IsHex(cp[i])
    ensures node == NodeBytes(cp)
  {
    hide StrToUL, IsHex, NodeBytes;
    node := [];
    for i := 0 to 6
      invariant node + NodeBytes(cp[2 * i..]) == NodeBytes(cp)
    {
      var buf := [cp[2 * i], cp[2 * i + 1]];
      NodeStep(cp[2 * i..], buf);
      assert cp[2 * i..][2..] == cp[2 * (i + 1)..];
      node := node + [StrToUL(buf)];
    }
    assert cp[2 * 6..] == "" && NodeBytes("") == [] by {
      NoNode();
    }
  }

  lemma NoNode()
    ensures NodeBytes("") == []
  {
  }

  lemma NodeStep(s: string, buf: string)
    requires |s| % 2 == 0 && |s| >= 2 && forall i :: 0 <= i < |s| ==> IsHex(s[i])
    requires buf == [s[0], s[1]]
    ensures StrToUL(buf) < 256 && NodeBytes(s) == [StrToUL(buf)] + NodeBytes(s[2..])
  {
    hide HexRun, DigitCount, HexValue, IsHex, StrToUL;
    PowersOf16();
    assert s[..2] == buf && buf[0..] == buf && buf[0..2] == buf;
    StrToULStops(buf, 0, 2);
    HexRunBound(buf);
  }

  // ----- there and back -----

  lemma {:induction false} NodeThereAndBack(node: Bytes, upper: bool)
    ensures NodeBytes(BytesText(node, upper)) == node
    decreases |node|
  {
    if node != [] {
      var t := BytesText(node, upper);
      assert t[..2] == HexNumber(node[0], 2, upper) && t[2..] == BytesText(node[1..], upper);
      PowersOf16();
      HexRunOfNumber(node[0], 2, upper);
      NodeThereAndBack(node[1..], upper);
    }
  }

  lemma {:induction false} NodeBackAndThere(s: string)
    requires |s| % 2 == 0 && forall i :: 0 <= i < |s| ==> IsHex(s[i])
    ensures BytesText(NodeBytes(s), false) == Lowered(s)
    decreases |s|
  {
    hide IsHex, ToLower, HexNumber, HexRun;
    if s != "" {
      NumberOfHexRun(s[..2]);
      NodeBackAndThere(s[2..]);
      assert Lowered(s) == Lowered(s[..2]) + Lowered(s[2..]);
    }
  }

  /** Two digits for each half of a 16-bit number are four digits for the whole. */
  lemma HexNumberHalves(v: uint16, upper: bool)
    ensures HexNumber(v / 256, 2, upper) + HexNumber(v % 256, 2, upper) == HexNumber(v, 4, upper)
  {
    hide HexDigit;
    NibblesOfHalves(v);
    assert HexNumber(v, 4, upper) == HexNumber(v / 16, 3, upper) + [HexDigit(v % 16, upper)];
    assert HexNumber(v / 16, 3, upper) == HexNumber(v / 256, 2, upper) + [HexDigit(v / 16 % 16, upper)];
    assert HexNumber(v % 256, 2, upper) == HexNumber(v / 16 % 16, 1, upper) + [HexDigit(v % 16, upper)];
    assert HexNumber(v / 16 % 16, 1, upper) == [HexDigit(v / 16 % 16, upper)];
  }

  lemma NibblesOfHalves(v: uint16)
    ensures v / 16 / 16 == v / 256
    ensures v % 256 / 16 == v / 16 % 16 && v % 256 % 16 == v % 16
    ensures v / 16 % 16 % 16 == v / 16 % 16
  {
  }

  /** The pieces of a printed UUID. */
  lemma UnparsedPieces(s: Bytes, upper: bool)
    requires |s| == 16
    ensures var t, u := Unparsed(s, upper), L.Unpacked(s);
            && IsUuidText(t)
            && t[..8] == HexNumber(u.timeLow, 8, upper) && t[9..13] == HexNumber(u.timeMid, 4, upper)
            && t[14..18] == HexNumber(u.timeHiAndVersion, 4, upper) && t[19..23] == HexNumber(u.clockSeq, 4, upper)
            && t[24..] == BytesText(u.node, upper)
  {
    hide HexNumber, BytesText, L.Unpacked;
    HexNumberHalves(L.Unpacked(s).clockSeq, upper);
  }

  /** Parsing what was printed, in either case, gives the 16 bytes back. */
  lemma ParsedUnparsed(s: Bytes, upper: bool)
    requires |s| == 16
    ensures '\0' !in Unparsed(s, upper) && Parsed(Unparsed(s, upper)) == Some(s)
  {
    hide HexNumber, HexRun, BytesText, NodeBytes, Unparsed, L.Unpacked, L.Packed;
    var t, u := Unparsed(s, upper), L.Unpacked(s);
    UnparsedPieces(s, upper);
    PowersOf16();
    HexRunOfNumber(u.timeLow, 8, upper);
    HexRunOfNumber(u.timeMid, 4, upper);
    HexRunOfNumber(u.timeHiAndVersion, 4, upper);
    HexRunOfNumber(u.clockSeq, 4, upper);
    NodeThereAndBack(u.node, upper);
    L.PackedUnpacked(s);
  }

  /** Printing what was parsed gives the text back in lower case. */
  lemma UnparsedParsed(s: CString)
    requires IsUuidText(s)
    ensures Parsed(s).Some? && Unparsed(Parsed(s).value, false) == Lowered(s)
  {
    hide HexNumber, HexRun, BytesText, NodeBytes, L.Unpacked, L.Packed;
    var u := ParsedFields(s);
    L.UnpackedPacked(u);
    NumberOfHexRun(s[..8]);
    NumberOfHexRun(s[9..13]);
    NumberOfHexRun(s[14..18]);
    NumberOfHexRun(s[19..23]);
    NodeBackAndThere(s[24..]);
    HexNumberHalves(u.clockSeq, false);
    LoweredPieces(s);
  }

  lemma LoweredPieces(s: string)
    requires IsUuidText(s)
    ensures Lowered(s) == Lowered(s[..8]) + ("-" + (Lowered(s[9..13]) + ("-" + (Lowered(s[14..18]) + ("-"
                          + (Lowered(s[19..23]) + ("-" + Lowered(s[24..]))))))))
  {
  }

  // ----- byte by byte -----

  /** The printed number of some bytes is the digits of each of them. */
  lemma {:induction false} NumberOfBytes(s: Bytes, upper: bool)
    ensures HexNumber(BE.ToNat(s), 2 * |s|, upper) == BytesText(s, upper)
    decreases |s|
  {
    hide HexDigit;
    if s != [] {
      var k := |s| - 1;
      var v := BE.ToNat(s[..k]);
      NumberOfBytes(s[..k], upper);
      HexNumberOfLast(v, s[k], 2 * k, upper);
      BytesTextOfLast(s[..k], s[k], upper);
      assert s == s[..k] + [s[k]];
    }
  }

  lemma HexNumberOfLast(v: nat, b: uint8, n: nat, upper: bool)
    ensures HexNumber(v * 256 + b, n + 2, upper) == HexNumber(v, n, upper) + HexNumber(b, 2, upper)
  {
    hide HexDigit;
    var w: nat := v * 256 + b;
    assert w / 16 / 16 == v && w / 16 % 16 == b / 16 && w % 16 == b % 16;
    TwoDigits(b, upper);
    assert HexNumber(w, n + 2, upper) == HexNumber(w / 16, n + 1, upper) + [HexDigit(w % 16, upper)];
  }

  lemma TwoDigits(b: uint8, upper: bool)
    ensures HexNumber(b, 2, upper) == [HexDigit(b / 16, upper), HexDigit(b % 16, upper)]
  {
    hide HexDigit;
    assert HexNumber(b / 16, 1, upper) == HexNumber(b / 16 / 16, 0, upper) + [HexDigit(b / 16 % 16, upper)];
  }

  lemma {:induction false} BytesTextOfLast(s: Bytes, b: uint8, upper: bool)
    ensures BytesText(s + [b], upper) == BytesText(s, upper) + HexNumber(b, 2, upper)
    decreases |s|
  {
    hide HexNumber;
    if s == [] {
      assert [b][1..] == [];
      assert BytesText([b], upper) == HexNumber(b, 2, upper) + BytesText([], upper);
    } else {
      assert (s + [b])[1..] == s[1..] + [b];
      BytesTextOfLast(s[1..], b, upper);
    }
  }

  lemma {:induction false} BytesTextAt(s: Bytes, k: nat, upper: bool)
    requires k < |s|
    ensures BytesText(s, upper)[2 * k] == HexDigit(s[k] / 16, upper)
    ensures BytesText(s, upper)[2 * k + 1] == HexDigit(s[k] % 16, upper)
    decreases |s|
  {
    hide HexDigit, HexNumber;
    TwoDigits(s[0], upper);
    if k > 0 {
      BytesTextAt(s[1..], k - 1, upper);
    }
  }

  /** The text is the bytes in order, with hyphens after the fourth, sixth, eighth and tenth. */
  lemma UnparsedIsBytes(s: Bytes, upper: bool)
    requires |s| == 16
    ensures Unparsed(s, upper) ==
            BytesText(s[..4], upper) + ("-" + (BytesText(s[4..6], upper) + ("-" + (BytesText(s[6..8], upper)
            + ("-" + (BytesText(s[8..10], upper) + ("-" + BytesText(s[10..], upper))))))))
  {
    hide HexNumber, BytesText;
    var u := L.Unpacked(s);
    NumberOfBytes(s[..4], upper);
    NumberOfBytes(s[4..6], upper);
    NumberOfBytes(s[6..8], upper);
    NumberOfBytes(s[8..10], upper);
    HexNumberHalves(u.clockSeq, upper);
  }

  /** Where the digits of a byte stand. */
  function PlaceOf(k: nat): nat {
    2 * k + if k < 4 then 0 else if k < 6 then 1 else if k < 8 then 2 else if k < 10 then 3 else 4
  }

  lemma UnparsedBytes(s: Bytes, upper: bool, k: nat)
    requires |s| == 16 && k < 16
    ensures var digits := if upper then "0123456789ABCDEF" else "0123456789abcdef";
            && Unparsed(s, upper)[PlaceOf(k)] == digits[s[k] / 16]
            && Unparsed(s, upper)[PlaceOf(k) + 1] == digits[s[k] % 16]
  {
    hide Unparsed, BytesText, HexDigit;
    UnparsedIsBytes(s, upper);
    DigitsExactly(s[k] / 16, ' ');
    DigitsExactly(s[k] % 16, ' ');
    if k < 4 {
      BytesTextAt(s[..4], k, upper);
    } else if k < 6 {
      BytesTextAt(s[4..6], k - 4, upper);
    } else if k < 8 {
      BytesTextAt(s[6..8], k - 6, upper);
    } else if k < 10 {
      BytesTextAt(s[8..10], k - 8, upper);
    } else {
      BytesTextAt(s[10..], k - 10, upper);
    }
  }

  /** Each byte that is parsed has the two digits that stand for it as its halves, in either case. */
  lemma ParsedBytes(s: CString, k: nat)
    requires IsUuidText(s) && k < 16
    ensures Parsed(s).Some? && IsHex(s[PlaceOf(k)]) && IsHex(s[PlaceOf(k) + 1])
    ensures Parsed(s).value[k] as int == 16 * HexValue(s[PlaceOf(k)]) + HexValue(s[PlaceOf(k) + 1])
  {
    hide Unparsed, HexValue, HexDigit, ToLower, IsHex;
    UnparsedParsed(s);
    var b := Parsed(s).value;
    UnparsedBytes(b, false, k);
    var c, d := s[PlaceOf(k)], s[PlaceOf(k) + 1];
    DigitOfValue(c);
    DigitOfValue(d);
    DigitsExactly(HexValue(c), ' ');
    DigitsExactly(HexValue(d), ' ');
    SameDigit(b[k] / 16, HexValue(c));
    SameDigit(b[k] % 16, HexValue(d));
  }

  lemma SameDigit(v: nat, w: nat)
    requires v < 16 && w < 16 && "0123456789abcdef"[v] == "0123456789abcdef"[w]
    ensures v == w
  {
    DigitsExactly(v, ' ');
    DigitsExactly(w, ' ');
  }
}
