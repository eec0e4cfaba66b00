/** Small value types shared by the other modules. */
module Base {

  /** A byte of file content. */
  type byte = b: int | 0 <= b < 256

  datatype Option<T> = None | Some(value: T)

  /** A Go `(value, error)` pair where exactly one side is meaningful; errors are their messages. */
  datatype Result<T> = Ok(value: T) | Err(error: string)
}
