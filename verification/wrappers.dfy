/** Option and Result datatypes: a value that may be missing, such as an
    entry without a `score` field, and an outcome that may be an error, such
    as a failed model call or a reply the client cannot parse. */
module Wrappers {

  /** A value that may be absent (a dictionary entry without a field). */
  datatype Option<+T> = None | Some(value: T) {

    /** The carried value, or `default` when there is none (Python's `dict.get(k, default)`). */
    function GetOr(default: T): T {
      match this
      case Some(v) => v
      case None => default
    }
  }

  /** The outcome of a step that either returns a value or raises an error
      carrying a message. */
  datatype Result<+R, +E> = Success(value: R) | Failure(error: E)
}
