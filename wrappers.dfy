/** The Option datatype used for fetch outcomes and optional results. */
module Wrappers {
  datatype Option<+T> = None | Some(value: T)
}
