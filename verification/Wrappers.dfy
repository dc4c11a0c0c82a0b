// Option and Result, used wherever the source returns None or raises.
module Wrappers {
  datatype Option<+T> = None | Some(value: T)
  datatype Result<+T, +E> = Ok(value: T) | Err(error: E)
}
