/** Failure-carrying results shared by the modules of the model. */
module Wrappers {

  /** An optional value, for fields that start out unset. */
  datatype Option<+T> = None | Some(value: T)

  /** The outcome of an operation that either yields a value or raises an error. */
  datatype Result<+T, +E> = Ok(value: T) | Err(error: E)
}
