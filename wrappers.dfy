/** The optional value shared by the other modules. */
module Wrappers {

  /** A value that may be absent; `None` stands for `npos` or `nullptr`. */
  datatype Option<+T> = None | Some(value: T)
}
