/** Numbers below 256 as bytes. */
module ByteValues {
  lemma RoundTrip(n: int)
    requires 0 <= n < 256
    ensures (n as bv8) as int == n
  {
  }
}
