/** Success-or-failure results for the operations of the model that throw
    (C++) or return `Err` (Rust). */
module Outcome {

  /** The value of an operation that either succeeds with `value` or fails
      with a description `error` of what went wrong. */
  datatype Result<+T, +E> = Ok(value: T) | Err(error: E) {

    predicate IsFailure() {
      Err?
    }

    function PropagateFailure<U>(): Result<U, E>
      requires Err?
    {
      Err(error)
    }

    function Extract(): T
      requires Ok?
    {
      value
    }
  }

  /** A value that may be absent. */
  datatype Option<+T> = None | Some(value: T)
}
