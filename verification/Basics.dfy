/** What all modules share. */
module Basics {
  type byte = b: int | 0 <= b < 256

  /** The number of 32-bit values. */
  const WORD := 0x1_0000_0000

  datatype Option<T> = None | Some(value: T)
}
