/** The optional value used for "may be absent" results (a cache miss, a number that does not parse). */
module Wrappers {

  datatype Option<+T> = None | Some(value: T)
}
