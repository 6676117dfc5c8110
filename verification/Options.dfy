/** The optional value used wherever the C++ code has a null pointer, an unset field or a "-1" result. */
module Options {
  datatype Option<+T> = None | Some(value: T)
}
