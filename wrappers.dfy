/** Option, result and outcome datatypes shared by every module of the model. */
module Wrappers {

  /** `Some(x)` or nothing; also stands for a possibly-null pointer. */
  datatype Option<+T> = None | Some(value: T)

  /** The value of a fallible call: `Ok(x)` or `Err(e)`, as `std::io::Result`. */
  datatype Result<+T, +E> = Ok(value: T) | Err(error: E)

  /** A fallible call that carries no value on success, as `Result<(), E>`. */
  datatype Outcome<+E> = Pass | Fail(error: E)

  function Min(a: int, b: int): (m: int)
    ensures m <= a && m <= b && (m == a || m == b)
  {
    if a <= b then a else b
  }
}
