/** Option and Result values used across the model. */
module Wrappers {

  /** A value that may be absent (Python's `None`). */
  datatype Option<+T> = None | Some(value: T)

  /** An outcome that is either a value or an error. */
  datatype Result<+T, +E> = Ok(value: T) | Err(error: E)
}
