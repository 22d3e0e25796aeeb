/** The optional value used for every nullable column and relation of the model. */
module Wrappers {

  datatype Option<+T> = None | Some(value: T)
}
