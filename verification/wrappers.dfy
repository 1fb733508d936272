/** Failure-compatible wrappers: `Option` for values that may be absent
    (JavaScript `undefined`/`null`) and `Result` for computations that may
    throw. Both can be used with `:-`. */
module Wrappers {

  datatype Option<+T> = None | Some(value: T) {
    predicate IsFailure() {
      None?
    }

    function PropagateFailure<U>(): Option<U>
      requires None?
    {
      None
    }

    function Extract(): T
      requires Some?
    {
      value
    }
  }

  datatype Result<+R, +E> = Success(value: R) | Failure(error: E) {
    predicate IsFailure() {
      Failure?
    }

    function PropagateFailure<U>(): Result<U, E>
      requires Failure?
    {
      Failure(error)
    }

    function Extract(): R
      requires Success?
    {
      value
    }

    /** The same outcome with the failure translated by `f`. */
    function MapFailure<E2>(f: E -> E2): (r: Result<R, E2>)
      ensures r.Success? <==> Success?
      ensures Success? ==> r.value == value
    {
      match this
      case Success(v) => Success(v)
      case Failure(e) => Failure(f(e))
    }
  }
}
