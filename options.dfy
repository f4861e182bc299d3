/** The optional value used for Python's `None` and for "no match". */
module Options {

  datatype Option<+T> = None | Some(value: T)
}
