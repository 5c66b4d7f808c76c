/** Big-endian numbers and the byte order of equally long strings. */
module BigEndian {
  import opened Machine

  function Pow256(n: nat): nat {
    if n == 0 then 1 else 256 * Pow256(n - 1)
  }

  function ToNat(s: Bytes): nat {
    if s == [] then 0 else ToNat(s[..|s| - 1]) * 256 + s[|s| - 1]
  }

  function FromNat(v: nat, n: nat): (s: Bytes)
    ensures |s| == n
  {
    if n == 0 then [] else FromNat(v / 256, n - 1) + [v % 256]
  }

  lemma {:induction false} ToNatBound(s: Bytes)
    ensures ToNat(s) < Pow256(|s|)
  {
    if s != [] {
      ToNatBound(s[..|s| - 1]);
    }
  }

  lemma {:induction false} ToNatFromNat(v: nat, n: nat)
    requires v < Pow256(n)
    ensures ToNat(FromNat(v, n)) == v
  {
    if n > 0 {
      ToNatFromNat(v / 256, n - 1);
      assert FromNat(v, n)[..n - 1] == FromNat(v / 256, n - 1);
    }
  }

  lemma {:induction false} FromNatToNat(s: Bytes)
    ensures FromNat(ToNat(s), |s|) == s
  {
    if s != [] {
      FromNatToNat(s[..|s| - 1]);
    }
  }

  function Sign(v: int): int {
    if v < 0 then -1 else if v > 0 then 1 else 0
  }

  /** The sign of `memcmp` on two strings of the same length. */
  function Compare(a: Bytes, b: Bytes): int
    requires |a| == |b|
  {
    if a == [] then 0
    else if a[0] != b[0] then (if a[0] < b[0] then -1 else 1)
    else Compare(a[1..], b[1..])
  }

  lemma {:induction false} CompareConcatenation(a: Bytes, b: Bytes, c: Bytes, d: Bytes)
    requires |a| == |b| && |c| == |d|
    ensures Compare(a + c, b + d) == if Compare(a, b) != 0 then Compare(a, b) else Compare(c, d)
  {
    if a == [] {
      assert a + c == c && b + d == d;
    } else {
      assert (a + c)[1..] == a[1..] + c && (b + d)[1..] == b[1..] + d;
      CompareConcatenation(a[1..], b[1..], c, d);
    }
  }

  /** Comparing big-endian numbers is comparing their bytes. */
  lemma {:induction false} CompareIsNumeric(a: Bytes, b: Bytes)
    requires |a| == |b|
    ensures Compare(a, b) == Sign(ToNat(a) - ToNat(b))
  {
    if a != [] {
      var k := |a| - 1;
      var a', b' := a[..k], b[..k];
      CompareIsNumeric(a', b');
      assert a == a' + [a[k]] && b == b' + [b[k]];
      CompareConcatenation(a', b', [a[k]], [b[k]]);
      var x: int, y: int := a[k], b[k];
      assert Compare([a[k]], [b[k]]) == Sign(x - y) by {
        assert [a[k]][1..] == [] && [b[k]][1..] == [];
      }
    }
  }

  lemma {:induction false} FirstDifference(a: Bytes, b: Bytes, k: nat)
    requires |a| == |b| && k < |a| && a[..k] == b[..k]
    ensures a[k] < b[k] ==> Compare(a, b) == -1
    ensures a[k] > b[k] ==> Compare(a, b) == 1
  {
    if k > 0 {
      assert a[0] == a[..k][0] == b[..k][0] == b[0];
      assert a[1..][..k - 1] == a[..k][1..] == b[..k][1..] == b[1..][..k - 1];
      FirstDifference(a[1..], b[1..], k - 1);
    }
  }

  lemma {:induction false} ToNatInjective(a: Bytes, b: Bytes)
    requires |a| == |b| && ToNat(a) == ToNat(b)
    ensures a == b
  {
    FromNatToNat(a);
    FromNatToNat(b);
  }

  /** The byte order is total: a three-way comparison that is antisymmetric, transitive, and zero only on equals. */
  lemma CompareIsTotalOrder(a: Bytes, b: Bytes, c: Bytes)
    requires |a| == |b| == |c|
    ensures Compare(a, b) == 0 <==> a == b
    ensures Compare(b, a) == -Compare(a, b)
    ensures Compare(a, b) <= 0 && Compare(b, c) <= 0 ==> Compare(a, c) <= 0
  {
    CompareIsNumeric(a, b);
    CompareIsNumeric(b, a);
    CompareIsNumeric(b, c);
    CompareIsNumeric(a, c);
    if Compare(a, b) == 0 {
      ToNatInjective(a, b);
    }
  }
}
