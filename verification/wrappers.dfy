/** The optional value used for absent message fields and for a payload that matches no handler. */
module Wrappers {

  datatype Option<+T> = None | Some(value: T)

}
