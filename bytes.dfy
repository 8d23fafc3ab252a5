/** Unsigned 8-bit units and powers of two. */
module Bytes {

  /** An unsigned byte: no sign, so 0xFF is the largest value. */
  type byte = x: int | 0 <= x < 256

  function Pow2(k: nat): (p: nat)
    ensures p >= 1
  {
    if k == 0 then 1 else 2 * Pow2(k - 1)
  }
}
