/** Small failure-compatible wrapper shared by the other modules. */
module Wrappers {

  /** An optional value: `None` stands for "no result" or for `nullptr`. */
  datatype Option<+T> = None | Some(value: T)
}
