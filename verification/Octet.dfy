/** Numbers below 256 as bytes. */
module Octet {
  lemma ByteValue(n: nat)
    requires n < 256
    ensures (n as bv8) as int == n
  {
  }
}
