/** The word of presence bits every generated message keeps in `_has_bits_[0]`. */
module PresenceBits {
  import opened Wrappers

  /** Is any of the bits of the mask set?  With a one-bit mask: is that member present? */
  predicate Has(bits: bv32, mask: bv32) {
    bits & mask != 0
  }

  /** Are all the bits of the mask set? */
  predicate HasAll(bits: bv32, mask: bv32) {
    (bits & mask) ^ mask == 0
  }

  function With(bits: bv32, mask: bv32): bv32 {
    bits | mask
  }

  function Without(bits: bv32, mask: bv32): bv32 {
    bits & !mask
  }

  /** A member that counts only if its presence bit is set. */
  function Held<X>(present: bool, x: X): Option<X> {
    if present then Some(x) else None
  }

  lemma WithBit(bits: bv32, mask: bv32, k: bv32)
    requires k & mask == 0
    ensures (bits | mask) & k == bits & k
  {
  }

  lemma WithoutBit(bits: bv32, mask: bv32, k: bv32)
    requires k & mask == 0
    ensures (bits & !mask) & k == bits & k
  {
    assert !mask & k == k;
    assert (bits & !mask) & k == bits & (!mask & k);
  }

  lemma GroupBit(bits: bv32, group: bv32, k: bv32)
    requires k & group == k
    ensures bits & k == (bits & group) & k
  {
    assert (bits & group) & k == bits & (group & k);
  }

  /** A member in a group is present only if some bit of the group's mask is set. */
  lemma GroupBits(bits: bv32, group: bv32)
    ensures forall k: bv32 {:trigger Has(bits, k)} :: k & group == k && Has(bits, k) ==> Has(bits, group)
  {
    forall k: bv32 | k & group == k && Has(bits, k) ensures Has(bits, group) {
      GroupBit(bits, group, k);
    }
  }

  /** When all the bits of a mask are set, every member in it is present. */
  lemma AllBits(bits: bv32, group: bv32)
    requires HasAll(bits, group)
    ensures forall k: bv32 {:trigger Has(bits, k)} :: k != 0 && k & group == k ==> Has(bits, k)
  {
    assert bits & group == group;
    forall k: bv32 | k != 0 && k & group == k ensures Has(bits, k) {
      GroupBit(bits, group, k);
    }
  }

  lemma NoBits()
    ensures forall k: bv32 {:trigger Has(0, k)} :: !Has(0, k)
  {
  }

  /** Setting a bit sets it and touches no other. */
  lemma WithBits(bits: bv32, mask: bv32)
    ensures mask != 0 ==> Has(With(bits, mask), mask)
    ensures forall k: bv32 {:trigger Has(With(bits, mask), k)} ::
              k & mask == 0 ==> (Has(With(bits, mask), k) <==> Has(bits, k))
  {
    forall k: bv32 | k & mask == 0 ensures Has(With(bits, mask), k) <==> Has(bits, k) {
      WithBit(bits, mask, k);
    }
  }

  /** Clearing a bit clears it and touches no other. */
  lemma WithoutBits(bits: bv32, mask: bv32)
    ensures !Has(Without(bits, mask), mask)
    ensures forall k: bv32 {:trigger Has(Without(bits, mask), k)} ::
              k & mask == 0 ==> (Has(Without(bits, mask), k) <==> Has(bits, k))
  {
    assert (bits & !mask) & mask == 0;
    forall k: bv32 | k & mask == 0 ensures Has(Without(bits, mask), k) <==> Has(bits, k) {
      WithoutBit(bits, mask, k);
    }
  }
}
