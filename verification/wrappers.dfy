/** Result type shared by the model's modules. */
module Wrappers {

  /** Either the value an operation computed or the error it raised. */
  datatype Result<+R, +E> = Success(value: R) | Failure(error: E)
}
