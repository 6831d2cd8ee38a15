/** Bytes, shared by the decoder and the big-endian reading. */
module Bytes {

  type byte = b: int | 0 <= b < 256
}
