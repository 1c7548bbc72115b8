/** What several modules share. */
module Basics {

  datatype Option<+T> = None | Some(value: T)

  /** An unsigned int of the source wraps here. */
  const UINT_RANGE := 0x1_0000_0000
}
