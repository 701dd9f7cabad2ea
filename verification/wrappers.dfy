/** Option and Result, the two failure-carrying shapes the rest of the model uses. */
module Wrappers {

  /** A value that may be missing: JavaScript's `null`/`undefined` on the model's side. */
  datatype Option<+T> = None | Some(value: T) {

    /** The value if present, otherwise `default`. */
    function GetOr(default: T): T {
      match this
      case Some(v) => v
      case None => default
    }
  }

  /** The outcome of one network round trip: the parsed body, or the message of the thrown `Error`. */
  datatype Result<+T> = Ok(value: T) | Err(message: string)
}
