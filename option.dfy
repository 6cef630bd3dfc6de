/** The usual optional value, used for the source's partial operations. */
module Optional {
  datatype Option<+T> = None | Some(value: T)
}
