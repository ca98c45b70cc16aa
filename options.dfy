/** The optional value used for C's NULL results and pointers. */
module Options {
  datatype Option<T> = None | Some(value: T)
}
