/** A value that may be missing: Python's `None`, and the result of an operation that raises. */
module Optional {
  datatype Option<+T> = None | Some(value: T)
}
