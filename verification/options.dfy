/** The optional value of Python's `None`-or-value returns. */
module Options {

  datatype Option<+T> = None | Some(value: T)
}
