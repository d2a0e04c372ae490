/** A value that may be missing: a null pointer, or -1, where the kernel means "nothing". */
module Options {
  datatype Option<T> = None | Some(value: T)
}
