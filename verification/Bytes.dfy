/** The unit all the models work on. */
module Bytes {

  type byte = bv8

  /** Bit `k` of a byte, bit 0 the lowest. */
  predicate BitSet(b: byte, k: nat)
    decreases k
  {
    if k == 0 then b & 1 == 1 else BitSet(b >> 1, k - 1)
  }
}
