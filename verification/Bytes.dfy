// The unsigned char of the C sources.
module Bytes {
  newtype Byte = x: int | 0 <= x < 256
}
