/** The optional value used where the parser's JavaScript returns `undefined` or no regex match. */
module Wrappers {

  datatype Option<+T> = None | Some(value: T)
}
