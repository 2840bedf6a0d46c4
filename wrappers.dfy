/** Optional values: `None` stands for Go's nil interface value. */
module Wrappers {

  datatype Option<+T> = None | Some(value: T)

}
