/** Bytes and the two line-break bytes. */
module Bytes {
  newtype byte = x: int | 0 <= x < 256

  const LF: byte := 10
  const CR: byte := 13
}
