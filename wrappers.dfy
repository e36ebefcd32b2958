/** Option and Result, the two failure-carrying value types used throughout the model. */
module Wrappers {

  datatype Option<+T> = None | Some(value: T) {
    /** `x or default` in the source: the value if present, else the default. */
    function GetOr(default: T): T {
      match this
      case Some(v) => v
      case None => default
    }
  }

  datatype Result<+R, +E> = Success(value: R) | Failure(error: E)
}
