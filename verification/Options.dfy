/** A nullable column, or a value a reader may lack. */
module Options {
  datatype Option<+T> = None | Some(value: T)
}
