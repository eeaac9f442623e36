/** Option and Result, failure-compatible so that decoding steps chain with `:-`. */
module Wrappers {

  datatype Option<+T> = None | Some(value: T) {

    /** Converts a missing value into the given error. */
    function ToResult<E>(error: E): (r: Result<T, E>)
      ensures r.Ok? <==> Some?
      ensures r.Ok? ==> r.value == value
      ensures r.Err? ==> r.error == error
    {
      match this
      case Some(v) => Ok(v)
      case None => Err(error)
    }

    /** The value, or `default` when there is none. */
    function GetOr(default: T): T {
      match this
      case Some(v) => v
      case None => default
    }
  }

  datatype Result<+T, +E> = Ok(value: T) | Err(error: E) {

    predicate IsFailure() {
      Err?
    }

    function PropagateFailure<U>(): Result<U, E>
      requires Err?
    {
      Err(error)
    }

    function Extract(): T
      requires Ok?
    {
      value
    }
  }
}
