/** Optional values and results with a named failure, used where the source
    works with `None`/null fields or catches an exception. */
module Wrappers {

  /** A value that may be absent: a SQL NULL, or Python's `None`. */
  datatype Option<+T> = None | Some(value: T) {

    /** The value, or `default` when absent (Python's `x or default` on a
        field that is either None or a string). */
    function GetOr(default: T): T {
      match this
      case Some(v) => v
      case None => default
    }
  }

  /** The outcome of a call that either returns a value or raises. */
  datatype Result<+R, +E> = Success(value: R) | Failure(error: E)
}
