/** The fixed-width integers the C and C++ sources compute with. */
module Machine {

  const TWO16: int := 0x1_0000
  const TWO31: int := 0x8000_0000
  const TWO32: int := 0x1_0000_0000
  const TWO64: int := 0x1_0000_0000_0000_0000

  type uint8 = x: int | 0 <= x < 0x100
  type uint16 = x: int | 0 <= x < 0x1_0000
  type uint32 = x: int | 0 <= x < 0x1_0000_0000
  type uint64 = x: int | 0 <= x < 0x1_0000_0000_0000_0000
  type int32 = x: int | -0x8000_0000 <= x < 0x8000_0000

  type Bytes = seq<uint8>

  /** A conversion from a 64-bit value to `uint32` keeps the low 32 bits. */
  function ToUInt32(v: uint64): uint32 {
    v % TWO32
  }

  /** A conversion to `int32` keeps the low 32 bits, read in two's complement. */
  function ToInt32(v: uint64): int32 {
    if v % TWO32 < TWO31 then v % TWO32 else v % TWO32 - TWO32
  }

  /** A conversion from `int32` to `uint64` extends the sign. */
  function SignExtend(v: int32): uint64 {
    if v < 0 then v + TWO64 else v
  }

  lemma SignExtendIsModular(v: int32)
    ensures SignExtend(v) == v % 0x1_0000_0000_0000_0000
  {
  }

  lemma ToInt32IsModular(v: uint64)
    ensures (v - ToInt32(v)) % 0x1_0000_0000 == 0
    ensures ToUInt32(v) == v % 0x1_0000_0000
  {
    assert v == v / TWO32 * TWO32 + v % TWO32;
  }

  lemma SignExtendRoundTrip(v: int32)
    ensures ToInt32(SignExtend(v)) == v
  {
    if v < 0 {
      assert v + TWO64 == (v + TWO32) + (TWO32 - 1) * TWO32;
      assert (v + TWO64) % TWO32 == v + TWO32;
    }
  }
}
