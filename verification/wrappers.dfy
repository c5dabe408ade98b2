/** Optional values: an id the order override does not mention, a scroll that requests no page,
    a drop that has no destination. */
module Wrappers {

  datatype Option<+T> = None | Some(value: T)
}
