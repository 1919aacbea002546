/** Values that may be absent, and results that may be failures. */
module Wrappers {
  datatype Option<T> = None | Some(value: T) {
    function OrElse(other: Option<T>): Option<T> {
      if Some? then this else other
    }

    function GetOr(default: T): T {
      if Some? then value else default
    }
  }

  datatype Result<T> = Success(value: T) | Failure {
    predicate IsFailure() { Failure? }
    function PropagateFailure<U>(): Result<U> requires Failure? { Failure }
    function Extract(): T requires Success? { value }
  }
}
