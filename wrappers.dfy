/** The optional value used for "absent" results throughout the model. */
module Wrappers {

  datatype Option<+T> = None | Some(value: T)
}
