/** Option and Result, the two wrappers the handlers use for "maybe found" and "succeeded or raised". */
module Results {

  datatype Option<+T> = None | Some(value: T)

  /** Ok carries a handler's response; Err stands for the HTTPException it raises. */
  datatype Result<+T, +E> = Ok(value: T) | Err(error: E)
}
