/** Failure-carrying values used throughout the model: an optional value
    (Python's `None` or a value) and a success-or-error result. */
module Wrappers {

  datatype Option<+T> = None | Some(value: T)

  datatype Result<+R, +E> = Success(value: R) | Failure(error: E)
}
