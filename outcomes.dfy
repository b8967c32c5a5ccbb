/** Option and Result values: the model's stand-ins for Python's `None` and
    for the exceptions the library raises. */
module Outcomes {

  datatype Option<+T> = None | Some(value: T)

  datatype Result<+T, +E> = Ok(value: T) | Err(error: E)
}
