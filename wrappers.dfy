/** Option and Result, the shapes every service of the application returns. */
module Wrappers {

  datatype Option<+T> = None | Some(value: T)

  /** A service call either produces a value or fails with an error (a raised `ValueError`). */
  datatype Result<+T, +E> = Ok(value: T) | Err(error: E)
}
