/** Small shared datatypes. */
module Common {

  /** A value that may be absent: Python's `None`, or a request parameter that was not sent. */
  datatype Option<T> = None | Some(value: T)
}
