/** The optional value used for Swift's failable initialisers and `Optional` results. */
module Wrappers {

  datatype Option<+T> = None | Some(value: T)
}
