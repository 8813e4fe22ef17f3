/** The optional value returned by a regular-expression match: `null` or a capture. */
module Wrappers {

  datatype Option<+T> = None | Some(value: T)

}
