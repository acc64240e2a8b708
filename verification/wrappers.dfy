/** The optional value used where the model leaves a result undetermined. */
module Wrappers {
  datatype Option<+T> = None | Some(value: T)
}
