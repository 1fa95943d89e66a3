/** Bytes as numbers, and the sizes of machine words. */
module Octets {

  type octet = b: int | 0 <= b < 256

  /** How many values a 32-bit word has. */
  const WORD := 0x1_0000_0000

  /** How many values `k` octets have. */
  function Pow256(k: nat): (p: nat)
    ensures p >= 1
  {
    if k == 0 then 1 else 256 * Pow256(k - 1)
  }
}
