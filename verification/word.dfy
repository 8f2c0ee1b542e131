/** Unsigned 32-bit words (`DWORD`, `dword`, `uint` on the platforms the
    server is built for) and the wrap-around arithmetic the fault path uses. */
module Word {

  const TWO_32: nat := 0x1_0000_0000
  const HIGH_BIT: nat := 0x8000_0000

  type u32 = x: int | 0 <= x < 0x1_0000_0000

  /** A signed 32-bit value (`long` on the Windows build). */
  type i32 = x: int | -0x8000_0000 <= x < 0x8000_0000

  /** A C cast of any integer (a pointer, a signed `int`) to a 32-bit
      unsigned word: the value modulo 2^32. */
  function ToDword(x: int): (w: u32)
    ensures (w - x) % TWO_32 == 0
  {
    x % TWO_32
  }

  /** The test `code & 0x80000000` of the render functions: bit 31 of the
      word, read arithmetically as `(w >> 31) & 1`. */
  predicate HighBitSet(w: u32) {
    (w / HIGH_BIT) % 2 == 1
  }

  /** Bit 31 is set exactly on the upper half of the word range, where the
      code reads as a negative platform status. */
  lemma HighBitSetIffUpperHalf(w: u32)
    ensures HighBitSet(w) <==> w >= HIGH_BIT
  {
  }

  /** `a -= b` on two DWORDs: subtraction that wraps below zero. */
  function SubWrap(a: u32, b: u32): u32 {
    if a >= b then a - b else a - b + TWO_32
  }

  function AddWrap(a: u32, b: u32): u32 {
    if a + b < TWO_32 then a + b else a + b - TWO_32
  }

  /** Wrapped subtraction is the difference modulo 2^32, and adding the
      subtrahend back undoes it. */
  lemma SubWrapIsModular(a: u32, b: u32)
    ensures SubWrap(a, b) == (a - b) % TWO_32
    ensures AddWrap(SubWrap(a, b), b) == a
  {
  }
}
