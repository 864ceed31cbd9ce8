/** A value that may be missing: Python's `None` or a present value. */
module Optional {
  datatype Option<+T> = None | Some(value: T)
}
