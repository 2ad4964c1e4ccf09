/** The "value or nothing" type that stands for Python's `None` returns. */
module Options {

  datatype Option<+T> = None | Some(value: T)
}
