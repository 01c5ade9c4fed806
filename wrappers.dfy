/** Option and Result, the two shapes used for JavaScript's `undefined`/`null`
    results and for exceptions that a caller catches. */
module Wrappers {

  datatype Option<+T> = None | Some(value: T) {
    function GetOr(default: T): T {
      match this
      case Some(v) => v
      case None => default
    }
  }

  /** `Failure` stands for a thrown exception; `error` names it. */
  datatype Result<+R> = Success(value: R) | Failure(error: string)
}
