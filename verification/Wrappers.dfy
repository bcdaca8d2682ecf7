/** Optional values, used where the source returns a null pointer, a missing value or a flag, and bytes. */
module Wrappers {
  datatype Option<+T> = None | Some(value: T)

  newtype byte = x: int | 0 <= x < 256
}
