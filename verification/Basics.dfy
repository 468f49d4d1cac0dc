/** Small things several modules use. */
module Basics {

  /** A value that may be missing. */
  datatype Option<T> = None | Some(value: T)

  function Bit(b: bool): nat {
    if b then 1 else 0
  }
}
