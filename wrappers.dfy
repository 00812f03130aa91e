/** The optional value used for environment lookups and service replies. */
module Wrappers {

  /** `None` stands for Python's `None`. */
  datatype Option<+T> = None | Some(value: T)
}
