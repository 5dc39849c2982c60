/** Failure-carrying return values shared by the inventory model. */
module Wrappers {

  /** An optional value: a JSON field that may be absent, or a nullable column. */
  datatype Option<+T> = None | Some(value: T) {

    /** The carried value, or `default` when there is none. */
    function GetOr(default: T): T {
      match this
      case Some(v) => v
      case None => default
    }
  }

  /** Either the value an operation produced or the reason it was rejected. */
  datatype Result<+R, +E> = Success(value: R) | Failure(error: E)
}
