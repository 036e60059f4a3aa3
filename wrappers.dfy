/** Optional values: `None` stands for Java's `null` or for a conversion that threw. */
module Wrappers {

  datatype Option<+T> = None | Some(value: T)
}
