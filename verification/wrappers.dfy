/** Failure-carrying result types shared by every module of the model. */
module Wrappers {

  /** A value that may be absent; `None` plays the part of SQL NULL, of a
      pandas NaN cell and of Python's `None` result. */
  datatype Option<+T> = None | Some(value: T)
  {
    function GetOr(default: T): T
    {
      match this
      case Some(v) => v
      case None => default
    }
  }

  /** Either a value or the error that replaced it. */
  datatype Result<+T, +E> = Success(value: T) | Failure(error: E)
}
