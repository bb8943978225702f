/** Option and Result, as the library's parsers return them. */
module Wrappers {

  datatype Option<+T> = None | Some(value: T)

  datatype Result<+R, +E> = Success(value: R) | Failure(error: E)

  function Min(a: nat, b: nat): nat
  {
    if a <= b then a else b
  }
}
