/** Option and Result values shared by the modules of this model. */
module Wrappers {

  datatype Option<+T> = None | Some(value: T)

  /** The outcome of an operation that the source lets fail with an exception. */
  datatype Result<+T, +E> = Success(value: T) | Failure(error: E)
}
