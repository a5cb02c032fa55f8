/** Bytes, as the tags and the codecs use them. */
module Bytes {
  type Byte = n: int | 0 <= n < 256
}
