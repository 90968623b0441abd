// Failure-carrying results shared by the modules of the model.
module Wrappers {
  /** A value that may be absent. */
  datatype Option<T> = None | Some(value: T)

  /** A computation that either produced a value or stopped with an error. */
  datatype Result<T, E> = Ok(value: T) | Err(error: E)
}
