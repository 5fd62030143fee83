/** Option and Result values used for the installer's absent documents and failed transitions. */
module Wrappers {

  datatype Option<+T> = None | Some(value: T) {
    /** The wrapped value, or `default` when there is none. */
    function GetOr(default: T): T {
      match this
      case Some(v) => v
      case None => default
    }
  }

  datatype Result<+R, +E> = Success(value: R) | Failure(error: E)

  /** The outcome of a transition that returns nothing on success. */
  datatype Outcome<+E> = Pass | Fail(error: E)
}
