/** Octets as Java's `byte[]` holds them, read as unsigned values. */
module Bytes {

  type byte = b: int | 0 <= b < 0x100
}
