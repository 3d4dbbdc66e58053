/** The conventional Some/None datatype, used for "no match", "no file yet" and "no process". */
module Wrappers {

  datatype Option<+T> = None | Some(value: T)
}
