/** Failure-carrying result types shared by the other modules. */
module Wrappers {

  /** A value that may be absent, like Python's `None`. */
  datatype Option<+T> = None | Some(value: T)

  /** Either a successful value or the error a command raises. */
  datatype Result<+R, +E> = Success(value: R) | Failure(error: E)
}
