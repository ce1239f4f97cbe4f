/** The optional value and the success-or-error value used throughout the model. */
module Wrappers {

  /** A value that may be missing: `null`/`undefined` in the application, or an absent store key. */
  datatype Option<+T> = None | Some(value: T)

  /** The outcome of an operation that either yields a value or reports an error. */
  datatype Result<+R, +E> = Success(value: R) | Failure(error: E)
}
