/** Optional values: `None` stands for the NULL pointer of the C interface. */
module Wrappers {

  datatype Option<+T> = None | Some(value: T)
}
