/** Helper types shared by every module of the model. */
module Wrappers {

  /** An optional value: C's null pointer / `false` return, C++'s nullptr. */
  datatype Option<+T> = None | Some(value: T)
}
