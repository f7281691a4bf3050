/** Bytes as bit vectors and back. */
module ByteBits {
  lemma BitsBack(a: int)
    requires 0 <= a < 0x100
    ensures (a as bv8) as int == a
  {}

  lemma IntBack(b: bv8)
    ensures (b as int) as bv8 == b
  {}
}
