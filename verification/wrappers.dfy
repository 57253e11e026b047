/** Option and Result values used for PHP's nullable fields and thrown exceptions. */
module Wrappers {

  /** A value that may be missing, such as a handle that was never connected. */
  datatype Option<+T> = None | Some(value: T) {

    /** The wrapped value, or `default` when there is none. */
    function GetOr(default: T): T {
      match this
      case Some(v) => v
      case None => default
    }
  }

  /** The outcome of an operation that either returns a value or throws. */
  datatype Result<+R, +E> = Ok(value: R) | Err(error: E)
}
