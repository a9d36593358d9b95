/** Failure-carrying result types shared by the modules of the model. */
module Wrappers {

  /** An optional value, used where the program may or may not have one. */
  datatype Option<+T> = None | Some(value: T)

  /** A computation that either produced a value or failed with an error. */
  datatype Result<+R, +E> = Success(value: R) | Failure(error: E)
}
