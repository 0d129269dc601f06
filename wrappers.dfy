/** Option and Result datatypes used by every other module. */
module Wrappers {

  datatype Option<+T> = None | Some(value: T)

  /** A successful value or the error a JavaScript call would have thrown. */
  datatype Result<+R, +E> = Ok(value: R) | Err(error: E) {
    predicate IsFailure() {
      Err?
    }

    function PropagateFailure<U>(): Result<U, E>
      requires Err?
    {
      Err(error)
    }

    function Extract(): R
      requires Ok?
    {
      value
    }
  }
}
