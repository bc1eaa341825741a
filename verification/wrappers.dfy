/** Option and Result, the two shapes the model uses for "maybe absent" and "value or failure". */
module Wrappers {

  /** A value that may be absent. */
  datatype Option<+T> = None | Some(value: T) {

    /** The wrapped value, or `default` when there is none. */
    function GetOr(default: T): T {
      match this
      case Some(v) => v
      case None => default
    }
  }

  /** Either a success value or a failure value. */
  datatype Result<+R, +E> = Ok(value: R) | Err(error: E)
}
