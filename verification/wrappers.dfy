/** Failure-compatible wrappers shared by every module of the model.
    - Option<T> stands for a .NET reference that may be null.
    - Result<T> stands for a computation that either yields a value or throws an exception
      that propagates to its caller (the model does not distinguish exception types).
 */
module Wrappers {

  /** A .NET reference that may be null: None is null. */
  datatype Option<+T> = None | Some(value: T) {

    /** The value, or the default when null (C#'s `??`). */
    function GetOr(default: T): T {
      match this
      case Some(v) => v
      case None => default
    }
  }

  /** A value, or an exception thrown while computing it. */
  datatype Result<+T> = Success(value: T) | Thrown {

    predicate IsFailure() {
      Thrown?
    }

    function PropagateFailure<U>(): Result<U>
      requires Thrown?
    {
      Thrown
    }

    function Extract(): T
      requires Success?
    {
      value
    }
  }
}
