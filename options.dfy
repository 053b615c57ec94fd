/** The optional value used where the runner returns a value or `None`. */
module Options {

  datatype Option<+T> = None | Some(value: T)
}
