/** An optional value (a JavaScript property that may be `undefined`) and
    a value-or-error (a result, or the error a source function throws). */
module Wrappers {

  /** A value that may be absent. */
  datatype Option<+T> = None | Some(value: T) {

    /** The value, or `default` when absent (JavaScript's `x || default`
        on an object-valued `x`). */
    function GetOr(default: T): T {
      match this
      case Some(v) => v
      case None => default
    }
  }

  /** Either a successful value or the error that was thrown. */
  datatype Result<+R, +E> = Success(value: R) | Failure(error: E)
}
