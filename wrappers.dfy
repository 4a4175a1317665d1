/** Option, Result and OneOrMany, shared by the chart model. */
module Wrappers {

  /** A value that may be JavaScript's `undefined` / `null`. */
  datatype Option<+T> = None | Some(value: T)

  /** The outcome of an operation that may throw: `Failure` carries the
      message of the `Error` the chart code throws. */
  datatype Result<+T> = Success(value: T) | Failure(error: string)

  /** An argument that the chart code accepts either as a single value or
      as an array; a single value is wrapped into a one-element list. */
  datatype OneOrMany<+T> = One(item: T) | Many(items: seq<T>) {
    function AsSeq(): seq<T> {
      match this
      case One(x) => [x]
      case Many(xs) => xs
    }
  }
}
