/** Optional values, for the operations whose source signals failure by
    returning `False`, raising, or finding nothing. */
module Wrappers {
  datatype Option<T> = None | Some(value: T)
}
