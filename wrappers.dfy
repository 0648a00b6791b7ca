/** Failure-compatible wrappers shared by the other modules. */
module Wrappers {

  /** Go's nil-or-pointer results. */
  datatype Option<+T> = None | Some(value: T)

  /** Go's (value, error) results. */
  datatype Result<+R, +E> = Success(value: R) | Failure(error: E)
}
