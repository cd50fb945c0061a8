/** The optional value used by every module for a pointer that may be null. */
module Options {

  datatype Option<+T> = None | Some(value: T)
}
