/** Option and Result, the failure-compatible wrappers used throughout the model.
    A Rust `panic!`, a failed `unwrap()` or an out-of-range index becomes `Err`
    carrying the message the program would print. */
module Wrappers {

  datatype Option<+T> = None | Some(value: T)

  datatype Result<+T> = Ok(value: T) | Err(msg: string) {

    predicate IsFailure() {
      Err?
    }

    function PropagateFailure<U>(): Result<U>
      requires Err?
    {
      Err(msg)
    }

    function Extract(): T
      requires Ok?
    {
      value
    }
  }

  /** Message of `Option::unwrap()` on `None`. */
  const UnwrapNone := "called `Option::unwrap()` on a `None` value"

  /** Message of an out-of-range `Vec` index. */
  const IndexOutOfBounds := "index out of bounds"
}
