/** A value that may be absent: the model of a nullable reference or of a
    conversion that can fail. */
module Wrappers {

  datatype Option<+T> = None | Some(value: T)
}
