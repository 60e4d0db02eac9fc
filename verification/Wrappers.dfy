/** Types shared by several modules. */
module Wrappers {
  newtype byte = x: int | 0 <= x < 256

  datatype Option<T> = None | Some(value: T)
}
