/** Failure-carrying values used throughout the model: a JavaScript value that may be
    `undefined`/`null` becomes an Option, a thrown error or a rejected promise a Result. */
module Wrappers {

  datatype Option<+T> = None | Some(value: T) {
    function GetOr(default: T): T {
      match this
      case Some(v) => v
      case None => default
    }
  }

  datatype Result<+R, +E> = Success(value: R) | Failure(error: E)
}
