/** Option and Result values: the model's stand-ins for Python's None and for
    the exceptions the handlers catch and report in a message box. */
module Wrappers {

  datatype Option<+T> = None | Some(value: T)

  datatype Result<+T, +E> = Ok(value: T) | Err(error: E)
}
