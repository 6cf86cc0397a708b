/** The optional value that the source writes as Rust's `Option`. */
module Options {

  datatype Option<+T> = None | Some(value: T)
}
