/** Stock failure-carrying datatypes used throughout the model. */
module Wrappers {

  datatype Option<+T> = None | Some(value: T)

  /** The outcome of a table update: the written row, or why nothing was written. */
  datatype Result<+R, +E> = Success(value: R) | Failure(error: E)
}
