/** Bytes as the reader sees them: unsigned values `0..255`. */
module Bytes {

  newtype byte = x: int | 0 <= x < 256
}
