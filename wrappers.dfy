/** The optional value used wherever a row, a lookup or an operation may be absent. */
module Wrappers {

  datatype Option<+T> = None | Some(value: T)
}
