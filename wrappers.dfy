/** Failure-carrying wrappers used for the error paths of the analysis pipeline. */
module Wrappers {

  /** A value that may be absent (Python's `Optional`). */
  datatype Option<+T> = None | Some(value: T)

  /** Either a value or an error (a raised exception, made explicit). */
  datatype Result<+R, +E> = Ok(value: R) | Err(error: E)
}
