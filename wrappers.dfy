/** Optional values and results used throughout the model. */
module Wrappers {

  /** A value that may be absent: a nullable column, an optional request field. */
  datatype Option<+T> = None | Some(value: T) {

    /** The value, or `default` when absent (Python's `dict.get(key, default)`). */
    function GetOr(default: T): T {
      match this
      case Some(v) => v
      case None => default
    }
  }

  /** The outcome of an operation that either succeeds with a value or is rejected. */
  datatype Result<+T, +E> = Ok(value: T) | Err(error: E)
}
