/** Java's nullable results, written as an explicit option. */
module Wrappers {

  datatype Option<+T> = None | Some(value: T)
}
