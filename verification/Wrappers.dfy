/** Result types for operations that can miss or be refused. */
module Wrappers {

  datatype Option<+T> = None | Some(value: T)

  /** An `Err` stands for the exception the original raises. */
  datatype Result<+T, +E> = Ok(value: T) | Err(error: E) {
    predicate IsFailure() {
      Err?
    }

    function PropagateFailure<U>(): Result<U, E>
      requires Err?
    {
      Err(error)
    }

    function Extract(): T
      requires Ok?
    {
      value
    }
  }
}
