/** The optional value shared by the decimal reader and the listing decoder. */
module Options {

  datatype Option<+T> = None | Some(value: T)
}
