/** Option and Result values: absent JSON keys, and Python exceptions as error values. */
module Results {

  datatype Option<+T> = None | Some(value: T)

  /** The outcome of an operation that may raise; `Err` carries the exception message. */
  datatype Result<+T> = Ok(value: T) | Err(message: string)
}
