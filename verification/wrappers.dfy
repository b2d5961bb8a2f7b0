/** Failure-compatible wrappers shared by the other modules: `Option` stands
    for a value that may be absent (JavaScript `null`/`undefined`), `Result`
    for a computation that either returns a value or throws an error. */
module Wrappers {

  datatype Option<+T> = None | Some(value: T) {

    /** The wrapped value, or `default` when there is none. */
    function GetOr(default: T): T {
      match this
      case Some(v) => v
      case None => default
    }
  }

  datatype Result<+R, +E> = Success(value: R) | Failure(error: E)
}
