/** The optional value that stands for a nullable reference (`T | null`) in the source. */
module Wrappers {

  datatype Option<+T> = None | Some(value: T)
}
