/** An optional value and a success-or-error result. */
module Wrappers {

  /** A value that may be absent. */
  datatype Option<+T> = None | Some(value: T)

  /** Either a successful value or an error. */
  datatype Result<+R, +E> = Success(value: R) | Failure(error: E)
}
