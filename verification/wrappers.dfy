/** Failure-compatible wrappers shared by every module of the model. */
module Wrappers {

  /** An optional value: Python's "key may be absent". */
  datatype Option<+T> = None | Some(value: T)

  /** Either a value or the error that stopped the computation. Usable with `:-`. */
  datatype Result<+T, +E> = Ok(value: T) | Err(error: E) {

    predicate IsFailure() {
      Err?
    }

    function PropagateFailure<U>(): Result<U, E>
      requires Err?
    {
      Err(error)
    }

    function Extract(): T
      requires Ok?
    {
      value
    }
  }
}
