/** Optional values and success/failure outcomes used throughout the model. */
module Wrappers {

  /** A value that may be absent; stands in for TypeScript's `T | null` and `T?`. */
  datatype Option<+T> = None | Some(value: T)

  /** The settled outcome of an asynchronous request: a value or an error message. */
  datatype Result<+R, +E> = Success(value: R) | Failure(error: E)
}
