/** A value that may be missing: Python's `None` or a present value. */
module Options {

  datatype Option<+T> = None | Some(value: T)
}
