/** The optional value used wherever the modelled code can come back without a result. */
module Wrappers {
  datatype Option<+T> = None | Some(value: T)
}
