/** The optional value used for "no match" and for the outcome of parsing. */
module Options {

  datatype Option<+T> = None | Some(value: T)
}
