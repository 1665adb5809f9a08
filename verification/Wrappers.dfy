/** The optional value the source writes as std::optional. */
module Wrappers {
  datatype Option<+T> = None | Some(value: T)
}
