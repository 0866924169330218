/** Option and Result: the failure-carrying values used for JavaScript's
    `undefined` and for thrown exceptions. */
module Wrappers {

  /** `None` stands for an absent (undefined) value. */
  datatype Option<+T> = None | Some(value: T) {

    /** The value, or `default` when absent (JavaScript's `??`). */
    function GetOr(default: T): (r: T)
      ensures Some? ==> r == value
      ensures None? ==> r == default
    {
      match this
      case Some(v) => v
      case None => default
    }
  }

  /** `Failure` stands for an exception thrown out of an operation. */
  datatype Result<+R, +E> = Success(value: R) | Failure(error: E)
}
