/** The optional value that stands for the source's std::optional and nullptr results. */
module Wrappers {
  datatype Option<+T> = None | Some(value: T)
}
