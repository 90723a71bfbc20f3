/** The Option type used where MultiMap.java returns a reference that may be null. */
module Wrappers {

  datatype Option<+T> = None | Some(value: T)
}
