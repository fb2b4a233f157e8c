/** Failure-carrying result types shared by the game modules. */
module Wrappers {

  /** A value that may be absent. */
  datatype Option<+T> = None | Some(value: T)

  /** Either a value or an error description. */
  datatype Result<+T, +E> = Success(value: T) | Failure(error: E)
}
