/** The optional value used for "no result" in the model. */
module Wrappers {

  datatype Option<T> = None | Some(value: T)
}
