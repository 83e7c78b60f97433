/** Optional values and results with an error, as used across the model. */
module Wrappers {

  /** A value that may be absent: JavaScript's `null` or Python's `None`. */
  datatype Option<T> = None | Some(value: T) {
    /** The value, or a default when there is none (Python's `d.get(k, default)`). */
    function GetOr(default: T): T {
      match this
      case Some(v) => v
      case None => default
    }
  }

  /** The outcome of a step that may raise: a value, or the error it raised. */
  datatype Result<T> = Success(value: T) | Failure(error: string)
}
