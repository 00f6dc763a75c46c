/** The optional value used wherever the Python code returns None or an
 *  operation of the host can fail. */
module Wrappers {

  datatype Option<+T> = None | Some(value: T)
}
