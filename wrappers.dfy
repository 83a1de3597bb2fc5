/** Optional values, standing in for the nullable pointers and handles of the kernel. */
module Wrappers {

  datatype Option<+T> = None | Some(value: T)
}
