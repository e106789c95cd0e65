/** The optional value the model uses for a result that may be absent. */
module Wrappers {
  datatype Option<T> = None | Some(value: T)
}
