// The unit that encodings write and read.
module Octets {
  type Byte = x: int | 0 <= x < 256
}
