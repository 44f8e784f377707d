/** The bytes that log text is made of. */
module Bytes {

  type Byte = b: int | 0 <= b < 256
}
