/** Optional values: `None` stands for a NULL pointer in the modelled C code. */
module Wrappers {

  datatype Option<+T> = None | Some(value: T)
}
