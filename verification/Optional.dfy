/** An optional value: the source's null pointers and omitted arguments. */
module Optional {
  datatype Option<+T> = None | Some(value: T)
}
