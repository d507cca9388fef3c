/** The optional value used wherever the source returns `null`/`undefined` or pops an empty list. */
module Options {
  datatype Option<+T> = None | Some(value: T)
}
