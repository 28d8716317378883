/** Failure-carrying results shared by the modules of the client. */
module Wrappers {

  datatype Option<+T> = None | Some(value: T)

  /** A value, or the error value the Go code would return beside a nil result. */
  datatype Result<+T, +E> = Ok(value: T) | Err(error: E)
}
