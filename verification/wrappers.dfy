/** Failure-carrying datatypes shared by the whole model.
- Option<T> stands for a value that may be absent (an omitted field).
- Result<T, E> stands for an operation that either returns a value or raises an error.
 */
module Wrappers {

  /** A value that may be absent. */
  datatype Option<+T> = None | Some(value: T) {

    /** The carried value, or `default` when absent. */
    function GetOr(default: T): T {
      match this
      case Some(v) => v
      case None => default
    }
  }

  /** The outcome of an operation that may raise an error. */
  datatype Result<+T, +E> = Success(value: T) | Failure(error: E)
}
