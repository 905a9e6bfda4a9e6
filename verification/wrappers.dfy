/** Failure-carrying datatypes shared by the game engines and the command shell. */
module Wrappers {

  /** An optional value: the provider results and the one-shot score report. */
  datatype Option<+T> = None | Some(value: T)

  /** A success value or a named error. */
  datatype Result<+R, +E> = Success(value: R) | Failure(error: E)
}
