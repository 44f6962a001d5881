/** The outcome of an operation of the program that may throw. */
module Results {
  datatype Result<+T> = Ok(value: T) | Thrown(message: string)
  datatype Option<+T> = None | Some(value: T)
}
