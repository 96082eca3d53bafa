/** The optional-value wrapper used for lookups that may find nothing. */
module Wrappers {

  datatype Option<+T> = None | Some(value: T)
}
