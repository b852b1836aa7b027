/** Option and Result, the failure-carrying values used across the model
    in place of Python's None and raised exceptions. */
module Results {

  datatype Option<+T> = None | Some(value: T) {
    /** The value if present, else the given default (Python's `dict.get(k, default)`). */
    function GetOr(default: T): T {
      match this
      case Some(v) => v
      case None => default
    }
  }

  datatype Result<+T, +E> = Ok(value: T) | Err(error: E)
}
