/** Failure-carrying values shared by every module of the model. */
module Wrappers {

  /** An optional value: Go's `(value, ok)` or `(value, err)` pair when only success matters. */
  datatype Option<+T> = None | Some(value: T)

  /** A value or an error: Go's `(value, err)` pair. */
  datatype Result<+T, +E> = Ok(value: T) | Err(error: E)
}
