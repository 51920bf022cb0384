/** Optional values and error-carrying results, used in place of C# `null`
    and of the exceptions the workflow graph builder throws. */
module Wrappers {

  datatype Option<+T> = None | Some(value: T) {
    /** The C# `x ?? d` operator. */
    function GetOr(default: T): T {
      match this
      case Some(v) => v
      case None => default
    }
  }

  datatype Result<+T, +E> = Ok(value: T) | Err(error: E)
}
