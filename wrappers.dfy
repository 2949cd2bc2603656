/** The conventional optional-value datatype, used for fallible lookups and fetches. */
module Wrappers {

  datatype Option<+T> = None | Some(value: T)
}
