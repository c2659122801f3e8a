/** Optional values and the outcome of an operation that may throw. */
module Results {

  datatype Option<+T> = None | Some(value: T)

  /** `Err` stands for a PHP `Exception`, carrying its message. */
  datatype Result<+T> = Ok(value: T) | Err(message: string)
}
