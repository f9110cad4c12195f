/** Bytes, as numbers. */
module Bytes {
  type byte = b: nat | b < 0x100
}
