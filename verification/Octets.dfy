/** Bytes, and the characters that C takes for space. */
module Octets {
  type Octet = b: int | 0 <= b < 256

  predicate IsSpace(c: int) { c == 32 || 9 <= c <= 13 }
}
