/** Failure-carrying return types: the model's stand-in for `throw` and for `undefined`. */
module Results {

  datatype Option<+T> = None | Some(value: T)

  /** The outcome of an operation that either succeeds with a value or throws `error`. */
  datatype Result<+T, +E> = Success(value: T) | Failure(error: E) {
    predicate IsFailure() { Failure? }

    function PropagateFailure<U>(): Result<U, E>
      requires Failure?
    {
      Failure(error)
    }

    function Extract(): T
      requires Success?
    {
      value
    }
  }

  /** The outcome of an operation that returns nothing or throws `error`. */
  datatype Outcome<+E> = Pass | Fail(error: E)

  /** The outcome of a computation: passed, or failed with its error. */
  function OutcomeOf<T, E>(r: Result<T, E>): Outcome<E> {
    if r.Success? then Pass else Fail(r.error)
  }

  /** The computed value, or `current` when the computation failed. */
  function ValueOr<T, E>(r: Result<T, E>, current: T): T {
    if r.Success? then r.value else current
  }
}
