/** JavaScript's `null`/`undefined` for values that may be missing. */
module Nullable {

  /** A value that is present (`Some`) or `null`/`undefined` (`None`). */
  datatype Option<+T> = None | Some(value: T)
}
