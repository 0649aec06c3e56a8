/** Failure-carrying values used in place of PHP's `null` returns and thrown exceptions. */
module Wrappers {

  /** A value that may be absent (PHP `null`). */
  datatype Option<+T> = None | Some(value: T) {
    function GetOr(default: T): T {
      match this
      case Some(v) => v
      case None => default
    }
  }

  /** Either a value or the error an exception would have carried. */
  datatype Result<+R, +E> = Success(value: R) | Failure(error: E)
}
