/** Optional values and results with an error, used wherever the Python code returns None,
    falls back to a default, or raises. */
module Wrappers {

  datatype Option<+T> = None | Some(value: T)
  {
    /** Python's `x if x is not None else default`, and `dict.get(key, default)` once looked up. */
    function GetOr(default: T): T
    {
      match this
      case Some(v) => v
      case None => default
    }
  }

  datatype Result<+T, +E> = Ok(value: T) | Err(error: E)
}
