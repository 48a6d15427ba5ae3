/** Optional values: Java's `Optional` and the nullable references of the source. */
module Wrappers {

  datatype Option<+T> = None | Some(value: T)
}
