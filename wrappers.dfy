/** The optional value used for a manager reference and for the error message. */
module Wrappers {

  /** `None` stands for JavaScript's `null`. */
  datatype Option<+T> = None | Some(value: T)
}
