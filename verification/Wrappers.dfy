// Failure-carrying results shared by all modules.

module Wrappers {
  datatype Option<+T> = None | Some(value: T)

  // The end of a call that returns nothing or throws.
  datatype Outcome<+E> = Pass | Fail(error: E) {
    predicate IsFailure() {
      Fail?
    }

    function PropagateFailure(): Outcome<E>
      requires Fail?
    {
      this
    }
  }

  // A thrown error is an Err carrying its cause; `:-` passes it on.
  datatype Result<+T, +E> = Ok(value: T) | Err(error: E) {
    predicate IsFailure() {
      Err?
    }

    function PropagateFailure<U>(): Result<U, E>
      requires Err?
    {
      Err(error)
    }

    function Extract(): T
      requires Ok?
    {
      value
    }
  }
}
