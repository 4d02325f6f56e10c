/** Small failure-carrying datatypes shared by the other modules. */
module Wrappers {

  /** A value that may be missing; None stands for a fatal abort of the source. */
  datatype Option<+T> = None | Some(value: T)
}
