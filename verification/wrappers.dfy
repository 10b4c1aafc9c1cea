/** Failure-carrying datatypes shared by the client and the server models. */
module Wrappers {

  /** A value that may be absent: JSON `null`, a missing key, or JavaScript's `NaN`. */
  datatype Option<+T> = None | Some(value: T) {

    /** The contained value, or `default` when there is none. */
    function GetOr(default: T): T {
      match this
      case Some(v) => v
      case None => default
    }
  }

  /** The outcome of an operation that can fail with an error of type `E`. */
  datatype Result<+R, +E> = Success(value: R) | Failure(error: E)
}
