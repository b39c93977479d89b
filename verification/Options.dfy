/** The one optional value of the project: Python's `None` or a value. */
module Options {
  datatype Option<+T> = None | Some(value: T)
}
