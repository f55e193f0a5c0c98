/** Bytes and decimal digits. */
module Alphabet {

  type Byte = b: int | 0 <= b < 256

  predicate IsDigit(c: char) { '0' <= c <= '9' }
}
