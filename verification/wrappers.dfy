/** Failure-compatible result types shared by the whole model.
    The Python tooling reports failure by raising an exception; the model
    returns `Err` with the exception class instead. */
module Wrappers {

  datatype Option<+T> = None | Some(value: T)

  /** The Python exception classes the modelled code can raise. */
  datatype PyError =
    | ValueError
    | IndexError
    | KeyError
    | ZeroDivisionError
    | UnboundLocalError

  datatype Result<+T> = Ok(value: T) | Err(error: PyError) {

    predicate IsFailure() {
      Err?
    }

    function PropagateFailure<U>(): Result<U>
      requires Err?
    {
      Err(error)
    }

    function Extract(): T
      requires Ok?
    {
      value
    }
  }
}
