/** `Option` and `Result`, used across the model: `Option` for Kotlin's
    nullable values and `Result` for operations that can throw. */
module Wrappers {

  /** A nullable value: `None` is Kotlin's `null`. */
  datatype Option<+T> = None | Some(value: T)

  /** The outcome of an operation that either returns a value or throws. */
  datatype Result<+R, +E> = Success(value: R) | Failure(error: E)
}
