/** Option and Result values shared by the logger and path-setter models. */
module Wrappers {

  /** A value that may be absent: JavaScript's `undefined` for an argument or a field. */
  datatype Option<T> = None | Some(value: T) {

    /** The value, or `default` when absent. */
    function GetOr(default: T): T {
      match this
      case Some(v) => v
      case None => default
    }
  }

  /** The outcome of an operation that may throw: a value or the thrown error's message. */
  datatype Result<T> = Ok(value: T) | Err(message: string)
}
