/** Bytes as the stream code handles them. */
module Bytes {
  type Byte = x: int | 0 <= x < 256

  const NEWLINE: Byte := 10
  const RETURN: Byte := 13
  const ESC: Byte := 0x1b
}
