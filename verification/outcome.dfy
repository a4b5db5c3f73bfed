/** Option and Result, the two failure-carrying shapes the model uses in place of
    Python's `None` and raised exceptions. */
module Outcome {

  /** An optional value, standing for Python's `Optional[...]`. */
  datatype Option<+T> = None | Some(value: T)

  /** Either a value or the exception that the source would raise instead. */
  datatype Result<+T, +E> = Ok(value: T) | Err(error: E) {

    predicate IsFailure() {
      Err?
    }

    function PropagateFailure<U>(): Result<U, E>
      requires Err?
    {
      Err(error)
    }

    function Extract(): T
      requires Ok?
    {
      value
    }
  }
}
