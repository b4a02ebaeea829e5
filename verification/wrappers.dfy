/** The two outcome types the handlers share: a value that may be absent,
    and the answer of a request, which is either a value or an error. */
module Wrappers {

  /** A value that may be absent, where the Python code returns a value or nothing. */
  datatype Option<+T> = None | Some(value: T)

  /** A handler's answer: a value, or the error it ends in. The members below
      let a handler stop at the first error with `:-`. */
  datatype Result<+R, +E> = Success(value: R) | Failure(error: E) {

    predicate IsFailure() {
      Failure?
    }

    function PropagateFailure<U>(): Result<U, E>
      requires Failure?
    {
      Failure(error)
    }

    function Extract(): R
      requires Success?
    {
      value
    }
  }
}
