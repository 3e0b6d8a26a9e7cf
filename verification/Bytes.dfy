/** The characters regular expressions are made of: unsigned chars, as the engine reads them. */
module Bytes {
  newtype byte = x: int | 0 <= x < 256

  type Word = seq<byte>

  datatype Option<+T> = None | Some(value: T)
}
