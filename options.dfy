/** Python's `Optional[X]`: a value or `None`. */
module Options {

  datatype Option<+T> = None | Some(value: T)

}
