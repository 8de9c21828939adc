/** What stands for a missing value, and for an exception with a code. */
module Wrappers {
  datatype Option<+T> = None | Some(value: T)

  datatype Result<+T> = Ok(value: T) | Err(code: string) {
    predicate IsFailure() { Err? }

    function PropagateFailure<U>(): Result<U> requires IsFailure() { Err(code) }

    function Extract(): T requires !IsFailure() { value }
  }
}
