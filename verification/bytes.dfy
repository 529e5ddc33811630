/** Octets, as Java's `byte[]` holds them (read unsigned). */
module Bytes {
  type Byte = x: int | 0 <= x < 256
}
