/** Failure-carrying values shared by every module of the model. */
module Wrappers {

  /** A value that may be absent; `None` stands for JavaScript's `undefined`. */
  datatype Option<+T> = None | Some(value: T) {
    function GetOr(default: T): T {
      match this
      case Some(v) => v
      case None => default
    }
  }

  /** The outcome of an operation that may throw; `Failure` carries the error message. */
  datatype Result<+T> = Success(value: T) | Failure(error: string)
}
