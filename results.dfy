/** Failure-compatible wrappers shared by the model. */
module Results {

  /** A value that may be absent. A missing table cell (pandas' NaN) is `None`. */
  datatype Option<+T> = None | Some(value: T)

  /** The outcome of an operation that the source can abort by raising an exception. */
  datatype Result<+T, +E> = Ok(value: T) | Err(error: E) {

    predicate IsFailure() {
      Err?
    }

    function PropagateFailure<U>(): Result<U, E>
      requires Err?
    {
      Err(error)
    }

    function Extract(): T
      requires Ok?
    {
      value
    }
  }
}
