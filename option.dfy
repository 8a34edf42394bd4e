/** An optional value, for the functions that may find nothing. */
module Optional {
  datatype Option<T> = None | Some(value: T)
}
