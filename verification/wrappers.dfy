/** Failure-compatible wrappers used across the model: an optional value
    (a missing query parameter, an absent header, data not yet loaded) and
    a result that either carries a value or a list of problems. */
module Wrappers {

  datatype Option<+T> = None | Some(value: T) {

    /** The value in Some, or `default` when None. */
    function GetOr(default: T): T {
      match this
      case Some(v) => v
      case None => default
    }
  }

  datatype Result<+R, +E> = Success(value: R) | Failure(error: E)
}
