/** The optional value used where the solver answers `false` instead of a
    result, or where a lookup has no answer. */
module Wrappers {
  datatype Option<+T> = None | Some(value: T)
}
