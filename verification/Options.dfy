/** A value that may be missing, as `std::optional`. */
module Options {
  datatype Option<T> = None | Some(value: T)
}
