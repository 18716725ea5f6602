/** The model's stand-ins for Rust's `Option` and for the `Result` behind
    `PartialVMResult` and `VMResult`. A `Result` can be unwrapped with `:-`, which
    returns its error early just as `?` does in the source. */
module Outcomes {

  datatype Option<+T> = None | Some(value: T)

  datatype Result<+T, +E> = Ok(value: T) | Err(error: E) {

    // The three members `:-` needs.

    predicate IsFailure() {
      Err?
    }

    function PropagateFailure<U>(): Result<U, E>
      requires Err?
    {
      Err(error)
    }

    function Extract(): T
      requires Ok?
    {
      value
    }
  }
}
