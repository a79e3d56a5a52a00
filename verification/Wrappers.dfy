/** The two failure-aware datatypes the other modules share. */
module Wrappers {

  datatype Option<+T> = None | Some(value: T)

  /** A thrown error is the `Failure` case. */
  datatype Result<+T, +E> = Success(value: T) | Failure(error: E)
}
