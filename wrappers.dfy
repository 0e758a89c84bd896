/** Optional values and results, standing in for C#'s nullable types and exceptions. */
module Wrappers {

  datatype Option<+T> = None | Some(value: T) {
    /** C#'s `x ?? default`. */
    function GetOr(default: T): T {
      match this
      case Some(v) => v
      case None => default
    }
  }

  datatype Result<+R, +E> = Success(value: R) | Failure(error: E)
}
