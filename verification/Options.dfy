// A value that may be missing: a null pointer, or a walk that reaches nothing.
module Options {
  datatype Option<T> = None | Some(value: T)
}
