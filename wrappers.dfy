/** Option and Result, the two failure-carrying datatypes the model uses. */
module Wrappers {

  /** A value that may be absent; for an optional JavaScript argument, `None` is `undefined`. */
  datatype Option<+T> = None | Some(value: T) {
    function GetOr(default: T): T {
      match this
      case Some(v) => v
      case None => default
    }
  }

  /** Either a value or the error a JavaScript function throws instead of returning. */
  datatype Result<+T, +E> = Ok(value: T) | Err(error: E)
}
