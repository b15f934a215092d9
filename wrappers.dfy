/** Small failure-carrying datatypes used across the model. */
module Wrappers {

  /** A value that may be absent (a C# reference that may be null). */
  datatype Option<T> = None | Some(value: T)

  /** The result of an operation that either succeeds with a value or fails with an error. */
  datatype Result<T, E> = Success(value: T) | Failure(error: E)

  /** The result of a check that either passes or fails with an error. */
  datatype Outcome<E> = Pass | Fail(error: E)
}
