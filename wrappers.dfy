/** Failure-compatible result types used by the symbolic engine.
    `Result` stands for a computation that either returns a value or raises;
    `Option` is used by the reference reader of rendered expressions. */
module Wrappers {

  datatype Option<+T> = None | Some(value: T)

  /** Either a value or the error the computation raised. */
  datatype Result<+T, +E> = Ok(value: T) | Err(error: E) {

    predicate IsFailure() {
      Err?
    }

    function PropagateFailure<U>(): Result<U, E>
      requires Err?
    {
      Err(error)
    }

    function Extract(): T
      requires Ok?
    {
      value
    }
  }
}
