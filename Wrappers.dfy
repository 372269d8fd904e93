/** Failure-compatible wrappers shared by the model: a value that may be
    absent, and a computation that may fail with an error. */
module Wrappers {

  datatype Option<+T> = None | Some(value: T)

  datatype Result<+R, +E> = Success(value: R) | Failure(error: E)
}
