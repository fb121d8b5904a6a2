/** The optional value shared by the modules of the model. */
module Wrappers {

  /** `None` plays the role of Python's `None` return from the matcher and of
      an exhausted fuel bound in the drivers. */
  datatype Option<+T> = None | Some(value: T)
}
