/** Optional values, used where the Rust code returns an `Option` or a parse
    that may fail. */
module Wrappers {

  datatype Option<+T> = None | Some(value: T)
}
