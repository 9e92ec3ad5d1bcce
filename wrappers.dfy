/** Option and Result: the model's stand-ins for C# null references and exceptions. */
module Wrappers {

  /** A value that may be absent, as a nullable reference is in the source. */
  datatype Option<+T> = None | Some(value: T) {

    /** The value, or `default` when absent (the `??` operator). */
    function GetOr(default: T): T {
      match this
      case Some(v) => v
      case None => default
    }
  }

  /** The outcome of a call: a value, or the failure it raised. */
  datatype Result<+R, +E> = Success(value: R) | Failure(error: E)
}
