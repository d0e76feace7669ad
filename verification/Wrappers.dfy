/** Values that may be missing and results that may be errors, for use with `:-`. */
module Wrappers {

  datatype Option<+T> = None | Some(value: T) {
    /** `ok_or`: what is missing becomes an error. */
    function OkOr<E>(error: E): Result<T, E> {
      if Some? then Ok(value) else Err(error)
    }
  }

  datatype Result<+T, +E> = Ok(value: T) | Err(error: E) {
    predicate IsFailure() { Err? }

    function PropagateFailure<U>(): Result<U, E>
      requires Err?
    {
      Err(error)
    }

    function Extract(): T
      requires Ok?
    {
      value
    }

    /** `map_err`. */
    function MapErr<F>(wrap: E -> F): Result<T, F> {
      if Ok? then Ok(value) else Err(wrap(error))
    }
  }
}
