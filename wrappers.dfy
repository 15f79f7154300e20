/** Optional values (Java's nullable references) and operation results
    (a value, or the BaseException an operation throws). */
module Wrappers {

  /** A nullable Java reference: None is null. */
  datatype Option<+T> = None | Some(value: T) {

    /** The value held, or `default` when there is none. */
    function GetOr(default: T): T
    {
      match this
      case Some(v) => v
      case None => default
    }
  }

  /** The outcome of an operation that either returns a value or throws. */
  datatype Result<+T, +E> = Success(value: T) | Failure(error: E)
}
