/** What several parts of the model share. */
module Basics {

  datatype Option<+T> = None | Some(value: T)

  /** Where 32-bit unsigned arithmetic wraps. */
  const U32: int := 0x1_0000_0000
}
