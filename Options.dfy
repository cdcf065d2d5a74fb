/** The optional value the model uses for JavaScript's `null` and `undefined`. */
module Options {

  datatype Option<+T> = None | Some(value: T)
}
