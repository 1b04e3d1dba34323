/** Option and Result, the model's replacement for None and for raised exceptions, and dynamically typed values. */
module Wrappers {

  datatype Option<+T> = None | Some(value: T)

  datatype Result<+R, +E> = Ok(value: R) | Err(error: E)

  /** The Python values an untyped input (a request field, a keyword argument) can hold. */
  datatype PyValue = PyBool(b: bool) | PyInt(i: int) | PyStr(s: string) | PyNone | PyOther
}
