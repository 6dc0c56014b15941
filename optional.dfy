/** The optional value shared by both engines: a lookup that may find nothing. */
module Optional {
  datatype Option<+T> = None | Some(value: T)
}
