/** Optional values: an absent URL parameter, a token that does not parse,
    a form draft without an id. */
module Wrappers {
  datatype Option<+T> = None | Some(value: T)
}
