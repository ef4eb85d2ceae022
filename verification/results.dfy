/** Failure-carrying values used throughout the model: Python's `None`
    becomes `None`, a raised exception becomes `Err` / `Fail`. */
module Results {

  datatype Option<+T> = None | Some(value: T)

  /** The result of an operation that either returns a value or raises. */
  datatype Result<+T, +E> = Ok(value: T) | Err(error: E) {

    predicate IsFailure() {
      Err?
    }

    function PropagateFailure<U>(): Result<U, E>
      requires Err?
    {
      Err(error)
    }

    function Extract(): T
      requires Ok?
    {
      value
    }
  }

  /** The result of a check that returns nothing or raises. */
  datatype Outcome<+E> = Pass | Fail(error: E)
}
