/** Conversions between integers and 8-bit values. */
module ByteConv {

  /** Casting an integer in 0..255 to 8 bits and back gives it unchanged. */
  lemma ByteOfInt(n: int)
    requires 0 <= n < 256
    ensures (n as bv8) as int == n
  {
  }
}
