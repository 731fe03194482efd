/** Failure-compatible wrappers shared by the rest of the model: `Option`
    for "no value" answers (Python's `None`, a caught exception) and
    `Result` for failures that end a whole run. */
module Wrappers {

  datatype Option<+T> = None | Some(value: T) {

    predicate IsFailure() {
      None?
    }

    function PropagateFailure<U>(): Option<U>
      requires None?
    {
      None
    }

    function Extract(): T
      requires Some?
    {
      value
    }
  }

  datatype Result<+R, +E> = Success(value: R) | Failure(error: E)
}
