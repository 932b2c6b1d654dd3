/**
 Values that may be absent, and computations that may fail.
 */
module Options {

  datatype Option<+T> = None | Some(value: T)

  datatype Outcome<+T, +E> = Ok(value: T) | Err(error: E)
  {
    predicate IsFailure() { Err? }
    function PropagateFailure<U>(): Outcome<U, E> requires Err? { Err(error) }
    function Extract(): T requires Ok? { value }
  }
}
