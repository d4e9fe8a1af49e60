/** The optional value used for every reference that may point at nothing. */
module Wrappers {

  /** `None` plays the role of an invalid model index. */
  datatype Option<+T> = None | Some(value: T)
}
