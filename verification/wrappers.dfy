/** The optional value used for the date range's end instant. */
module Wrappers {

  datatype Option<+T> = None | Some(value: T)

}
