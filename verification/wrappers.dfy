/** The failure-carrying datatype shared by the model. */
module Wrappers {

  /** A value that may be absent, used where the server either finds
      something or falls through to an error path. */
  datatype Option<+T> = None | Some(value: T)
}
