/** Optional values and results that carry an error. */
module Wrappers {

  /** A slot that may still be empty. */
  datatype Option<T> = None | Some(value: T)

  /** The outcome of an operation that can fail with an error of type `E`. */
  datatype Result<T, E> = Success(value: T) | Failure(error: E)
}
