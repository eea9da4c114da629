/** The optional value used for "no reply" and for parses that fail. */
module Options {
  datatype Option<+T> = None | Some(value: T)
}
