/** Option and Result values used where the modelled code returns "nothing" or throws. */
module Wrappers {

  datatype Option<+T> = None | Some(value: T)

  /** A call that either produces a value or fails the way the source throws an Error. */
  datatype Result<+T, +E> = Success(value: T) | Failure(error: E)
}
