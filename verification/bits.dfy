/** Conversions between small integers and bit-vectors, routed through bytes. */
module Bits {

  /** An integer below 256 survives the round trip through a byte. */
  lemma SmallByte(n: int)
    requires 0 <= n < 256
    ensures (n as bv8) as int == n
  {
  }

  /** A byte survives the round trip through an integer. */
  lemma ByteIntByte(b: bv8)
    ensures (b as int) as bv8 == b
  {
  }
}
