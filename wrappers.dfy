/** Option and Result, the two failure-carrying values the handler needs. */
module Wrappers {

  /** A value that may be absent: Python's None on one side. */
  datatype Option<+T> = None | Some(value: T) {

    /** `d.get(key, default)`: the value, or the default when there is none. */
    function GetOr(default: T): T
    {
      match this
      case Some(v) => v
      case None => default
    }
  }

  /** The outcome of a step that may raise: the value, or the error it carries. */
  datatype Result<+R, +E> = Success(value: R) | Failure(error: E)
}
