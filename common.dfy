/** Values shared by every module: a nullable value and the outcome of an
    operation that can throw. */
module Common {

  /** A Java reference that may be null. */
  datatype Option<T> = None | Some(value: T)

  /** The result of a Java call that either returns a value or throws. */
  datatype Result<T, E> = Ok(value: T) | Err(error: E)
}
