/** The value-or-nothing type that stands for a pointer the C code may return as NULL. */
module Options {
  datatype Option<+T> = None | Some(value: T)
}
