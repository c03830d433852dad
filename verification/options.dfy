/** The optional value used for Go's nil-or-value results. */
module Options {

  datatype Option<T> = None | Some(value: T)
}
