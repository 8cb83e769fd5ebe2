/** Option and Result values used across the model. */
module Wrappers {

  /** A value that may be absent: JavaScript's `undefined`/`null` or an element that was not found. */
  datatype Option<+T> = None | Some(value: T) {
    function GetOr(default: T): T {
      match this
      case Some(v) => v
      case None => default
    }
  }

  /** The outcome of an operation that may throw. */
  datatype Result<+T, +E> = Success(value: T) | Failure(error: E)
}
