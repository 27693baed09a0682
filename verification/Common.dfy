/** The optional value that the modules share. */
module Common {

  /** A value that may be missing (Python's None). */
  datatype Option<+T> = None | Some(value: T)
}
