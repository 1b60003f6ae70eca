/** Failure-carrying return types shared by the command and query services. */
module Results {

  /** A value that may be absent; stands in for a Java reference that may be null. */
  datatype Option<+T> = None | Some(value: T)

  /** The outcome of a service call: a value, or the NOT_FOUND failure naming the id that did not resolve. */
  datatype Result<+T> = Ok(value: T) | NotFound(id: int)
}
