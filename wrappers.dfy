/** Optional values (JavaScript's `undefined`) and results of operations that may throw. */
module Wrappers {

  /** `None` stands for a value the source leaves `undefined`. */
  datatype Option<+T> = None | Some(value: T)

  /** The outcome of an operation that throws an `Error` with a message on failure. */
  datatype Result<+R, +E> = Success(value: R) | Failure(error: E)
}
