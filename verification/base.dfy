/** Small shared datatypes: Python's `None`-or-value results. */
module Base {

  /** A value that may be absent, as Python functions returning `None` on failure. */
  datatype Option<+T> = None | Some(value: T) {

    /** The wrapped value, or `default` when absent (Python's `x or default` on a missing key). */
    function GetOr(default: T): (r: T)
      ensures Some? ==> r == value
      ensures None? ==> r == default
    {
      match this
      case Some(v) => v
      case None => default
    }
  }

  /** A value or an error, for Python functions that raise. */
  datatype Result<+R, +E> = Success(value: R) | Failure(error: E)
}
