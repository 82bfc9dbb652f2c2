/** The outcome types shared by every module. */
module Wrappers {

  datatype Option<+T> = None | Some(value: T)

  /** What a fallible operation of the source returns. */
  datatype Result<+T, +E> = Ok(value: T) | Err(error: E) {
    predicate IsFailure() {
      Err?
    }

    function PropagateFailure<U>(): Result<U, E>
      requires Err?
    {
      Err(error)
    }

    function Extract(): T
      requires Ok?
    {
      value
    }
  }
}
