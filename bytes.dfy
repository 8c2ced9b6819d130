/** Octets, as a Node `Buffer` holds them. */
module Bytes {
  newtype byte = x: int | 0 <= x < 0x100
}
