/** Optional values and error-carrying results, standing in for `T | null` and thrown errors. */
module Wrappers {

  /** A value that may be absent: `null`/`undefined` in the source. */
  datatype Option<+T> = None | Some(value: T) {

    /** The value, or `default` when absent (the source's `x || default` on objects). */
    function GetOr(default: T): T {
      match this
      case Some(v) => v
      case None => default
    }
  }

  /** Either a value or the error the source would throw. */
  datatype Result<+T, +E> = Ok(value: T) | Err(error: E)
}
