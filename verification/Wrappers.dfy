/** Failure-free result types shared by the model. */
module Wrappers {

  /** A value that may be missing: a NULL pointer, an absent attribute or a failed lookup. */
  datatype Option<+T> = None | Some(value: T)
}
