/** Option and Result values used for the Go (value, error) pairs. */
module Wrappers {

  datatype Option<+T> = None | Some(value: T) {
    /** The value when present, otherwise `default`. */
    function GetOr(default: T): T {
      match this
      case Some(v) => v
      case None => default
    }
  }

  datatype Result<+T, +E> = Ok(value: T) | Err(error: E)
}
