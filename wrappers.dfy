/** Option and Result, the two shapes the model uses for Python's `None` sentinel and for
    the exceptions the source lets escape. */
module Wrappers {

  datatype Option<+T> = None | Some(value: T)

  datatype Result<+R, +E> = Ok(value: R) | Err(error: E)
}
