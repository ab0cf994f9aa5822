/** Failure-compatible wrappers shared by the model: an optional value (Python's
    `None` versus a value) and a success/failure result (a raised exception). */
module Wrappers {

  datatype Option<+T> = None | Some(value: T)

  datatype Result<+R, +E> = Success(value: R) | Failure(error: E)
}
