/** Optional values and results that stand for the .NET exceptions of the
    runtime-resolution code: `Err` is "an exception was thrown here". */
module Wrappers {

  datatype Option<+T> = None | Some(value: T) {
    /** The value, or `default` where the source would see null. */
    function GetOr(default: T): (r: T)
      ensures Some? ==> r == value
      ensures None? ==> r == default
    {
      match this
      case Some(v) => v
      case None => default
    }
  }

  datatype Result<+T, +E> = Ok(value: T) | Err(error: E) {
    /** The value, or `default` where the source catches the exception. */
    function GetOr(default: T): (r: T)
      ensures Ok? ==> r == value
      ensures Err? ==> r == default
    {
      match this
      case Ok(v) => v
      case Err(_) => default
    }
  }
}
