/** Option and Result: the absent-value and error-return shapes the model uses
    for Python's `None` and for operations that can fail. */
module Wrappers {

  datatype Option<+T> = None | Some(value: T)

  datatype Result<+T, +E> = Ok(value: T) | Err(error: E)
}
