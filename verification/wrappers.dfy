/** Optional values and success/failure results, used for the fields a
    list response may omit and for the outcome of a bulk operation. */
module Wrappers {

  /** A value that may be absent (a JSON field the server left out). */
  datatype Option<+T> = None | Some(value: T)

  /** The settled state of a promise: resolved with a value or rejected with an error. */
  datatype Result<+T, +E> = Success(value: T) | Failure(error: E)
}
