/** Failure-compatible wrappers used for the exceptions and `None` returns of
    the diary backends. */
module Results {

  /** Python's `X | None`. */
  datatype Option<+T> = None | Some(value: T) {

    predicate IsFailure() {
      None?
    }

    function PropagateFailure<U>(): Option<U>
      requires None?
    {
      None
    }

    function Extract(): T
      requires Some?
    {
      value
    }

    /** Applies `f` to the wrapped value, keeping `None` as it is. */
    function Map<U>(f: T -> U): (r: Option<U>)
      ensures r.Some? <==> Some?
      ensures r.Some? ==> r.value == f(value)
    {
      match this
      case None => None
      case Some(v) => Some(f(v))
    }
  }

  /** A value, or the exception that the source raises instead of returning it. */
  datatype Result<+T, +E> = Success(value: T) | Failure(error: E) {

    predicate IsFailure() {
      Failure?
    }

    function PropagateFailure<U>(): Result<U, E>
      requires Failure?
    {
      Failure(error)
    }

    function Extract(): T
      requires Success?
    {
      value
    }
  }
}
