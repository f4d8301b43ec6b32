/** A value that may be missing: None stands for the programs' null, NULL or None. */
module Wrappers {
  datatype Option<T> = None | Some(value: T)
}
