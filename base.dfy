/** Option and Result: the optional fields of a layout node and the error
    returns of the label synthesis. */
module Base {

  datatype Option<+T> = None | Some(value: T)

  datatype Result<+T, +E> = Ok(value: T) | Err(error: E)
}
