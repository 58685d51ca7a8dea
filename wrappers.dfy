/** The optional value returned by the external InChI generator. */
module Wrappers {

  datatype Option<+T> = None | Some(value: T)
}
