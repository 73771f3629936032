/** The optional value used for the table's nullable state and its optional callback. */
module Wrappers {

  datatype Option<+T> = None | Some(value: T)
}
