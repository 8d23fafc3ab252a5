/** Failure-compatible wrappers used by every conversion in this project. */
module Results {

  /** An optional value: `None` stands for an evaluator error whose detail is not modelled. */
  datatype Option<+T> = None | Some(value: T)

  /** Either a converted value or the error that stopped the conversion. */
  datatype Result<+T, +E> = Ok(value: T) | Err(error: E) {

    predicate IsFailure() {
      Err?
    }

    function PropagateFailure<U>(): Result<U, E>
      requires Err?
    {
      Err(error)
    }

    function Extract(): T
      requires Ok?
    {
      value
    }
  }
}
