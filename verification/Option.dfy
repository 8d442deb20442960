/** The optional value shared by every module of the model. */
module Option {
  datatype Option<+T> = None | Some(value: T)
}
