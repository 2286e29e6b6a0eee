/** Optional values and results with an error, shared by the modules of this model. */
module Wrappers {

  datatype Option<+T> = None | Some(value: T)

  /** The outcome of an operation that may raise: a value, or the reason it failed. */
  datatype Result<+T, +E> = Success(value: T) | Failure(error: E)
}
