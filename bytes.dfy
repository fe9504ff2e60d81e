/** Bytes (`u8`), shared by every module that stores raw data. */
module Bytes {
  type Byte = x: int | 0 <= x < 256
}
