/** Failure-carrying results used across the model: `Option` for a value that may be
    absent (a parse that fails, a total that is not a number) and `Result` for an
    operation that either succeeds or is rejected with a user-visible error. */
module Wrappers {

  datatype Option<+T> = None | Some(value: T)

  datatype Result<+R, +E> = Success(value: R) | Failure(error: E)
}
