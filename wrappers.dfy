/** A value that may be absent: the model of a field typed `T | null`. */
module Wrappers {

  datatype Option<+T> = None | Some(value: T)
}
