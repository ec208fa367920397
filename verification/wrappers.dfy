/** Datatypes used throughout the model: `Option` for the Python functions
    that may return `None`, and `Result` for the ones that may raise, which
    can be used with `:-`. */
module Wrappers {

  datatype Option<+T> = None | Some(value: T)

  /** `Ok(value)` is a normal return; `Err(error)` is a raised exception. */
  datatype Result<+T, +E> = Ok(value: T) | Err(error: E) {
    predicate IsFailure() {
      Err?
    }

    function PropagateFailure<U>(): Result<U, E>
      requires Err?
    {
      Err(error)
    }

    function Extract(): T
      requires Ok?
    {
      value
    }
  }
}
