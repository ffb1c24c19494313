/** The conventional Some/None datatype, used where the source returns a pointer that may be NULL. */
module Options {
  datatype Option<+T> = None | Some(value: T)
}
