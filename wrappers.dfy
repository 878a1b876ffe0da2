/** An optional value, standing in for the nullable pointers of the source. */
module Wrappers {

  datatype Option<T> = None | Some(value: T)
}
