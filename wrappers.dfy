/** Failure-compatible result types used by the record parser. */
module Wrappers {

  datatype Option<+T> = None | Some(value: T)

  /** Either a decoded value or the error that stopped the decoding. */
  datatype Result<+T, +E> = Ok(value: T) | Err(error: E) {

    predicate IsFailure() {
      Err?
    }

    function PropagateFailure<U>(): Result<U, E>
      requires Err?
    {
      Err(error)
    }

    function Extract(): T
      requires Ok?
    {
      value
    }
  }
}
