/** Option and Result datatypes shared by the other modules. */
module Wrappers {

  datatype Option<+T> = None | Some(value: T)

  /** The outcome of an operation the program may abort with an error. */
  datatype Result<+R, +E> = Success(value: R) | Failure(error: E)
}
