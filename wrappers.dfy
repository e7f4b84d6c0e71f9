/** Optional values and results with an error, shared by the other modules. */
module Wrappers {

  /** A value that may be absent: a missing JSON key, an attribute an element does not carry. */
  datatype Option<+T> = None | Some(value: T) {
    function GetOr(default: T): T {
      match this
      case Some(v) => v
      case None => default
    }
  }

  /** Either a value or the error that stopped its computation (a Python exception). */
  datatype Result<+R, +E> = Success(value: R) | Failure(error: E)

  /** A JSON object member that may be missing, `null`, or present. */
  datatype Field<+T> = Absent | Null | Present(value: T)
}
