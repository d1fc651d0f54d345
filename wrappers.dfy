/** The usual optional value, used for "no tile under the pointer". */
module Wrappers {

  datatype Option<+T> = None | Some(value: T)
}
