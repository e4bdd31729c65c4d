/** Option and Result: the error paths of the scripts (a missing token, a
    table that pandas refuses to build) become values instead of exceptions. */
module Wrappers {

  datatype Option<+T> = None | Some(value: T) {
    function GetOr(default: T): T {
      match this
      case Some(v) => v
      case None => default
    }
  }

  /** The failure carries the name of the exception the script would raise. */
  datatype Result<+T> = Success(value: T) | Failure(error: string)
}
