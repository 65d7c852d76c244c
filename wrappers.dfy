/** Optional values, standing for Python's None and JavaScript's undefined. */
module Wrappers {

  datatype Option<T> = None | Some(value: T) {

    /** The wrapped value, or the default when there is none (Python's `x or default` on a missing value). */
    function GetOr(default: T): T {
      match this
      case Some(v) => v
      case None => default
    }
  }

  /** The outcome of an operation that raises on failure: the value, or what was raised. */
  datatype Result<T, E> = Ok(value: T) | Err(error: E)
}
