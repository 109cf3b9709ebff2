/** The optional value used wherever the loader meets a Java null or a call that may fail. */
module Wrappers {

  datatype Option<+T> = None | Some(value: T)
}
