/** Failure-compatible wrappers used throughout the model. */
module Basics {

  /** A value that may be absent: JavaScript's `null`/`undefined` next to a real value. */
  datatype Option<+T> = None | Some(value: T)

  /** The outcome of an operation that either yields a value or fails with an error. */
  datatype Result<+T, +E> = Success(value: T) | Failure(error: E)

  /** `xs` followed by the bytes/characters `rest` holds, when `rest` holds something. */
  function Prepend<T>(xs: seq<T>, rest: Option<seq<T>>): (r: Option<seq<T>>)
    ensures r.Some? <==> rest.Some?
    ensures r.Some? ==> r.value == xs + rest.value
  {
    match rest
    case None => None
    case Some(ys) => Some(xs + ys)
  }
}
