/** The result of an operation that C++ reports by std::optional or by throwing. */
module Options {
  datatype Option<+T> = None | Some(value: T)
}
