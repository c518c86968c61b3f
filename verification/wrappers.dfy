/** Failure-compatible wrappers shared by every module of the model.
    `Option` stands for a JavaScript value that may be `null`/`undefined`;
    `Result` stands for a call that either returns or throws. */
module Wrappers {

  datatype Option<+T> = None | Some(value: T) {

    function GetOr(default: T): T {
      match this
      case Some(v) => v
      case None => default
    }
  }

  datatype Result<+R> = Success(value: R) | Failure(error: string) {

    predicate IsFailure() {
      Failure?
    }
  }
}
