/** Failure-carrying values shared by the modules of the model. */
module Wrappers {

  /** An optional value: the Rust `Option`. */
  datatype Option<+T> = None | Some(value: T)

  /** A value or an error: the Rust `Result`, usable with `:-`. */
  datatype Result<+R, +E> = Ok(value: R) | Err(error: E) {

    predicate IsFailure() {
      Err?
    }

    function PropagateFailure<U>(): Result<U, E>
      requires Err?
    {
      Err(error)
    }

    function Extract(): R
      requires Ok?
    {
      value
    }
  }
}
