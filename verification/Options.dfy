/** The optional value used for Python's "raised an exception", "returned -1" and None. */
module Options {
  datatype Option<+T> = None | Some(value: T)
}
