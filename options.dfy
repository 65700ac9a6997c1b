/** The optional value used where the program has `None` or an absent result. */
module Options {

  datatype Option<+T> = None | Some(value: T)
}
