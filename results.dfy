/** Optional values and error-carrying results shared by the modules of this model. */
module Results {

  /** A value that may be absent: the programs' `null`/`undefined` returns. */
  datatype Option<T> = None | Some(value: T)

  /** A value or the message of the error the program would throw. */
  datatype Result<T> = Ok(value: T) | Err(message: string)
}
