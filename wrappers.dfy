/** Option and Result, used for Python's None and for the exceptions the
    modelled code raises. */
module Wrappers {

  datatype Option<+T> = None | Some(value: T) {
    function GetOr(default: T): T {
      match this
      case Some(v) => v
      case None => default
    }
  }

  /** A raised Python exception is an `Err` naming the exception class. */
  datatype Result<+T> = Ok(value: T) | Err(error: string)
}
