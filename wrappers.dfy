/** Failure-carrying results shared by the whole model. */
module Wrappers {

  /** Rust's `Option<T>`: `None` is the grid's contradiction signal. */
  datatype Option<+T> = None | Some(value: T)

  /** Rust's `Result<T, E>`; `:-` plays the part of Rust's `?`. */
  datatype Result<+T, +E> = Ok(value: T) | Err(error: E)
  {
    predicate IsFailure() {
      Err?
    }

    function PropagateFailure<U>(): Result<U, E>
      requires Err?
    {
      Err(error)
    }

    function Extract(): T
      requires Ok?
    {
      value
    }
  }
}
