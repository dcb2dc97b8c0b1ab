/** Option and Result, for PHP's null and for the exceptions the models raise. */
module Wrappers {

  datatype Option<+T> = None | Some(value: T) {
    function GetOr(default: T): T {
      match this
      case Some(v) => v
      case None => default
    }
  }

  /** A value, or the code of the exception that was raised instead. */
  datatype Result<+T> = Ok(value: T) | Err(code: int)
}
