/** The optional value shared by the layer lookup and the CSV reader. */
module Wrappers {
  datatype Option<T> = None | Some(value: T)
}
