/** Failure-compatible wrappers shared by the model's modules. */
module Wrappers {

  /** A value that may be absent (a missing cell, a lookup with no candidate). */
  datatype Option<+T> = None | Some(value: T)

  /** The value an operation returns, or the exception it raises. */
  datatype Result<+T, +E> = Ok(value: T) | Err(error: E)
}
