/** Bytes and words as numbers and as bits. */
module Bits {
  lemma NarrowValue(a: int)
    requires 0 <= a < 256
    ensures (a as bv8) as int == a
  {
    if a < 128 {
      if a < 64 {
      } else {
      }
    } else {
      if a < 192 {
      } else {
      }
    }
  }

  lemma WideValue(w: bv8)
    ensures (w as bv32) as int == w as int
  {}

  lemma ByteOfIndex(b: bv8)
    ensures (b as int) as bv8 == b
  {}

  lemma LowAsByte(x: bv32)
    ensures ((x & 0xFF) as bv8) as bv32 == x & 0xFF
  {}

  lemma DoubleNegation(x: bv32)
    ensures !!x == x
  {}
}
