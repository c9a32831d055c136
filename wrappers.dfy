/** Optional values and results with an error, used by every module of the model. */
module Wrappers {

  datatype Option<+T> = None | Some(value: T)

  /** The value of an operation, or the exception it raises. */
  datatype Result<+T, +E> = Ok(value: T) | Err(error: E) {

    predicate IsFailure() {
      Err?
    }

    function PropagateFailure<U>(): Result<U, E>
      requires Err?
    {
      Err(error)
    }

    function Extract(): T
      requires Ok?
    {
      value
    }
  }
}
