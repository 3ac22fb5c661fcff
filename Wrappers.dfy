/** Failure-compatible result type used for the source's thrown exceptions. */
module Wrappers {

  datatype Result<+T, +E> = Success(value: T) | Failure(error: E) {
    predicate IsFailure() { Failure? }

    function PropagateFailure<U>(): Result<U, E>
      requires Failure?
    {
      Failure(error)
    }

    function Extract(): T
      requires Success?
    {
      value
    }
  }

  /** The exception `std::vector::at` throws for an index past the end. */
  datatype DeckError = OutOfRange
}
