/** Option and Result, the two failure-carrying datatypes the model uses in
    place of C#'s nullable values and thrown exceptions. */
module Wrappers {

  /** A value that may be absent: `Nullable<T>` or a null reference. */
  datatype Option<+T> = None | Some(value: T) {

    /** `GetValueOrDefault(fallback)`: the value when present, else `fallback`. */
    function ValueOr(fallback: T): T {
      if Some? then value else fallback
    }

    /** C#'s null-coalescing `this ?? other` on two nullable values. */
    function OrElse(other: Option<T>): Option<T> {
      if Some? then this else other
    }
  }

  /** The outcome of an operation that may throw. */
  datatype Result<+R, +E> = Success(value: R) | Failure(error: E)
}
