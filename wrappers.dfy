/** The optional value used for a food spot that may not exist and a record that may not be saved. */
module Wrappers {
  datatype Option<T> = None | Some(value: T)
}
