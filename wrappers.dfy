/** The optional-value datatype the other modules share. */
module Wrappers {

  /** A value that may be missing (JavaScript's `undefined` or `null`). */
  datatype Option<+T> = None | Some(value: T)
}
