/** Option and Result, used for PHP's nullable values and for thrown errors. */
module Wrappers {

  datatype Option<+T> = None | Some(value: T) {
    /** PHP's `??` on a nullable value. */
    function GetOr(default: T): T {
      match this
      case Some(v) => v
      case None => default
    }
  }

  datatype Result<+T, +E> = Success(value: T) | Failure(error: E)
}
