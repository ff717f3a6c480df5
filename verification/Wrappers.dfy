/** The one general-purpose datatype the model needs. */
module Wrappers {
  datatype Option<+T> = None | Some(value: T)
}
