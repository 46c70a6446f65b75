/** Optional values and results with an error, used in place of
    JavaScript's `undefined`/`null` and thrown exceptions. */
module Wrappers {

  /** A value that may be absent (JavaScript's `undefined` or `null`). */
  datatype Option<+T> = None | Some(value: T) {

    /** The value, or `default` when absent (JavaScript's `x ?? default`). */
    function GetOr(default: T): T {
      match this
      case Some(v) => v
      case None => default
    }
  }

  /** The outcome of an operation that can fail (a rejected promise in TypeScript). */
  datatype Result<+T, +E> = Ok(value: T) | Err(error: E)
}
