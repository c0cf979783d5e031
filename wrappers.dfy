/** The optional value used for PHP's "unset or null" and for lookups that may miss. */
module Wrappers {

  datatype Option<+T> = None | Some(value: T)

}
