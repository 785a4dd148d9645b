/** Failure-carrying results shared by every component of the model. */
module Wrappers {

  datatype Option<+T> = None | Some(value: T)

  /** The outcome of an operation that the source aborts with an exception. */
  datatype Result<+T, +E> = Ok(value: T) | Err(error: E)
}
