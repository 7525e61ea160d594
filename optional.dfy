/** The optional value used wherever PHP code reads something that may be unset. */
module Optional {

  datatype Option<+T> = None | Some(value: T)
}
