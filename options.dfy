/** The optional value used wherever the source returns `Option`. */
module Options {
  datatype Option<T> = None | Some(value: T)
}
