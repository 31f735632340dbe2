/** An optional value: a metadata entry or a variable that may be unset. */
module Optional {
  datatype Option<T> = None | Some(value: T)
}
