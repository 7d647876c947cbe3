/** Failure-carrying values shared by every service of the pipeline. */
module Wrappers {

  /** A value that may be absent: a failed remote call, a missing header. */
  datatype Option<+T> = None | Some(value: T)

  /** A value or the error that replaced it, as Go's `(T, error)` pairs. */
  datatype Result<+T, +E> = Ok(value: T) | Err(error: E)
}
