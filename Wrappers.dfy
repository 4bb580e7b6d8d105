/** Result shapes shared by the model: Python's None, and the exceptions the
    modelled code raises, as values. */
module Wrappers {

  datatype Option<T> = None | Some(value: T)

  datatype Result<T, E> = Ok(value: T) | Err(error: E)

  /** The Python exceptions raised by the modelled code paths. */
  datatype Exception =
    | IndexError                   // a list index past the end
    | SyntaxError(message: string) // raised explicitly by check_exists
}
