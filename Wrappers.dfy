/** Failure-compatible wrappers shared by the other modules. */
module Wrappers {

  /** Python's `None` or a value. */
  datatype Option<+T> = None | Some(value: T)

  /** A value, or an exception that the source lets escape. */
  datatype Result<+T, +E> = Ok(value: T) | Err(error: E)
}
