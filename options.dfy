/** The optional value used for "no match" and "out of fuel". */
module Options {

  datatype Option<+T> = None | Some(value: T)
}
