/** The optional value used for every outcome that Python signals with
    `None`, an empty match, or an exception caught by the caller. */
module Wrappers {

  datatype Option<+T> = None | Some(value: T)

}
