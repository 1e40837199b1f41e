/** Option and Result: the model's stand-ins for Ruby's nil and for a raised exception. */
module Wrappers {

  datatype Option<+T> = None | Some(value: T)

  /** `Success` is a normal return; `Failure` carries the error that the Ruby code raises. */
  datatype Result<+R, +E> = Success(value: R) | Failure(error: E)
}
