/** Failure-carrying values: Go's `(value, error)` pairs become `Result`. */
module Wrappers {

  datatype Option<+T> = None | Some(value: T)

  datatype Result<+T, +E> = Success(value: T) | Failure(error: E) {

    /** Applies `f` to the error of a failure, leaving a success untouched. */
    function MapFailure<E2>(f: E -> E2): (r: Result<T, E2>)
      ensures Success? <==> r.Success?
      ensures Success? ==> r.value == value
      ensures Failure? ==> r.error == f(error)
    {
      match this
      case Success(v) => Success(v)
      case Failure(e) => Failure(f(e))
    }
  }
}
