/** Optional values and error results, used where the program returns None or raises. */
module Outcomes {

  datatype Option<+T> = None | Some(value: T) {
    function GetOr(default: T): T
    {
      match this
      case Some(v) => v
      case None => default
    }
  }

  datatype Result<+T, +E> = Ok(value: T) | Err(error: E)
}
