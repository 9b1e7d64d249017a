/** The optional value shared by the other modules; `None` stands for C's NULL pointer. */
module Options {
  datatype Option<+T> = None | Some(value: T)
}
