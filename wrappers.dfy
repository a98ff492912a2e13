/** Optional values and results with an error, standing for JavaScript's
    `null` and for the exceptions the date picker throws. */
module Wrappers {

  /** A value that may be absent (`null` in the source). */
  datatype Option<+T> = None | Some(value: T) {

    /** The value, or `default` when absent (the source's `??` operator). */
    function GetOr(default: T): T {
      match this
      case Some(v) => v
      case None => default
    }
  }

  /** The value a call returns, or the error it throws. */
  datatype Result<+T, +E> = Success(value: T) | Failure(error: E) {

    /** Forgets the error. */
    function ToOption(): Option<T> {
      match this
      case Success(v) => Some(v)
      case Failure(_) => None
    }
  }

  /** A call that returns nothing, or throws an error. */
  datatype Outcome<+E> = Pass | Fail(error: E)
}
