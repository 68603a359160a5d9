/** Rust's `Option`, and a result type that turns the lexer's panics into
    ordinary outcomes a caller can inspect. */
module Wrappers {

  /** Rust's `Option<T>`. */
  datatype Option<+T> = None | Some(value: T)

  /** The result of an operation that may panic in the source: `Ok` carries
      the value, `Err` says which unwrap or parse aborted the program. */
  datatype Result<+T, +E> = Ok(value: T) | Err(error: E) {

    predicate IsFailure() {
      Err?
    }

    function PropagateFailure<U>(): Result<U, E>
      requires Err?
    {
      Err(error)
    }

    function Extract(): T
      requires Ok?
    {
      value
    }
  }
}
