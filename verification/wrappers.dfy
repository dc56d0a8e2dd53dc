/** An optional value: a missing XML element text, a pandas NaN cell, an absent reply. */
module Wrappers {

  datatype Option<+T> = None | Some(value: T)
}
