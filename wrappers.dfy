/** Optional values and error-carrying results shared by the riddle bot modules. */
module Wrappers {

  /** A value that may be absent, like a Python `None` or a missing dictionary key. */
  datatype Option<T> = None | Some(value: T) {
    /** The value, or `default` when absent (Python's `dict.get(key, default)`). */
    function GetOr(default: T): T {
      match this
      case Some(v) => v
      case None => default
    }
  }

  /** Either a new value or the error that stopped the operation. */
  datatype Result<T, E> = Ok(value: T) | Err(error: E)
}
