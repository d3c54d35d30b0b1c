/** Optional values and fallible results, used where the Python code returns
    None or raises an exception. */
module Wrappers {

  datatype Option<+T> = None | Some(value: T) {

    /** The value, or `default` when there is none (SQL's COALESCE). */
    function GetOr(default: T): T {
      match this
      case Some(v) => v
      case None => default
    }
  }

  /** `Err` stands for a Python exception raised before anything was committed,
      so the store is left as it was. */
  datatype Result<+T, +E> = Ok(value: T) | Err(error: E)
}
