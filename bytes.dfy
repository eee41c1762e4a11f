/** Python `bytes` values: sequences of integers in [0, 256). */
module Bytes {

  type byte = x: int | 0 <= x < 256

  type bytes = seq<byte>
}
