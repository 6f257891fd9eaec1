/** Option and Result, the failure-carrying values used across the model. */
module Wrappers {

  datatype Option<+T> = None | Some(value: T)

  /** A value or the error a Python function would have raised instead. */
  datatype Result<+T, +E> = Ok(value: T) | Err(error: E)
}
