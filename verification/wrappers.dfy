/** Failure-carrying results: the model's stand-in for thrown exceptions and null returns. */
module Wrappers {

  /** A value that may be absent (a null pointer in the original). */
  datatype Option<+T> = None | Some(value: T)

  /** The errors the number tower and the automata can signal. */
  datatype Error =
    | ZeroInversion      // a division whose divisor is the zero of its field or ring
    | InvalidExpression  // a regular expression rejected by the validity check

  /** Either a value or the error that was raised instead of producing it. */
  datatype Result<+T> = Success(value: T) | Failure(error: Error) {
    predicate IsFailure() {
      Failure?
    }

    function PropagateFailure<U>(): Result<U>
      requires Failure?
    {
      Failure(error)
    }

    function Extract(): T
      requires Success?
    {
      value
    }
  }
}
