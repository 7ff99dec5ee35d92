/** Failure-carrying values shared by the model. */
module Wrappers {

  /** A value that may be absent; stands for a nullable reference. */
  datatype Option<T> = None | Some(value: T)

  /** The outcome of an operation that may throw: a value or the error it raised. */
  datatype Result<T, E> = Ok(value: T) | Err(error: E)
}
