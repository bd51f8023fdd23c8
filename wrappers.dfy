/** Outcome of an operation that the source may abort with an exception. */
module Wrappers {
  datatype Result<+T, +E> = Ok(value: T) | Err(error: E)

  /** Smallest of two counts: how far Python's `zip` (and `min`) walks. */
  function Min(a: nat, b: nat): nat
  {
    if a <= b then a else b
  }
}
