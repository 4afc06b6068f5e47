/** Failure-carrying values used across the model in place of Go's (value, error) pairs. */
module Outcomes {

  /** A value that may be absent: a nil pointer or an empty optional column. */
  datatype Option<+T> = None | Some(value: T)

  /** A value or the error that prevented computing it. */
  datatype Result<+T, +E> = Ok(value: T) | Err(error: E)
}
