/** The "no result" values of the library (null, undefined, an absent zip slot). */
module Wrappers {
  datatype Option<+T> = None | Some(value: T)
}
