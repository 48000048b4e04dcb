/** Option and Result, the shapes every handler of the exercise tracker returns through. */
module Wrappers {

  datatype Option<+T> = None | Some(value: T) {
    /** The carried value, or `default` when there is none. */
    function GetOr(default: T): T {
      match this
      case Some(v) => v
      case None => default
    }
  }

  /** A handler either answers with a value or throws an error the middleware turns into a response. */
  datatype Result<+R, +E> = Success(value: R) | Failure(error: E)
}
