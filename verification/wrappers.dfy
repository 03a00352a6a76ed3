/** Failure-carrying datatypes shared by the model: `Option` for JavaScript's
    `undefined`-or-value arguments and `Result` for operations that throw or reject. */
module Wrappers {

  datatype Option<+T> = None | Some(value: T) {

    /** The carried value, or `default` when absent (a JavaScript default parameter). */
    function GetOr(default: T): T {
      match this
      case Some(v) => v
      case None => default
    }
  }

  /** `Failure` stands for a thrown `Error` or a rejected promise. */
  datatype Result<+R, +E> = Success(value: R) | Failure(error: E)
}
