/** Failure-compatible result type shared by the model: `Err` stands for a
    Python exception raised by the modelled code. */
module Wrappers {

  datatype Option<+T> = None | Some(value: T)

  datatype Result<+T, +E> = Ok(value: T) | Err(error: E) {

    predicate IsFailure() {
      Err?
    }

    function PropagateFailure<U>(): Result<U, E>
      requires Err?
    {
      Err(error)
    }

    function Extract(): T
      requires Ok?
    {
      value
    }
  }

  /** The Python exceptions the modelled code can raise. */
  datatype PyError =
    | ValueError       // datetime(...) given an out-of-range field
    | OverflowError    // datetime + timedelta left years 1..9999
    | KeyError(key: string)  // event[key] on a record without that key
    | AttributeError(name: string)  // ev.name on a record without that property
}
