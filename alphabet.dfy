/** The fixed 256-symbol alphabet: one symbol per byte value. */
module Alphabet {

  const AlphabetSize: nat := 256

  /** An unsigned 8-bit value, numpy's `uint8`. */
  newtype byte = x: int | 0 <= x < 256

  /** numpy's cast of an integer to `uint8`: reduction modulo 256, no clamping. */
  function Uint8(n: int): (b: byte)
    ensures 0 <= n < 256 ==> b as int == n
    ensures n == 256 ==> b == 0
  {
    (n % 256) as byte
  }
}
