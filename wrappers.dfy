/** The optional value used for page fetches and regular-expression matches. */
module Wrappers {
  datatype Option<+T> = None | Some(value: T)
}
