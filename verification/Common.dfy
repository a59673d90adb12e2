/** Types and constants that several components share. */
module Common {

  datatype Option<+T> = None | Some(value: T)

  type byte = b: int | 0 <= b < 256

  /** The number of values of a 32-bit word. */
  const U32 := 0x1_0000_0000
}
