/** The optional value shared by the modules of this model (a null pointer,
    a failed lookup, a missing plugin). */
module Wrappers {

  datatype Option<+T> = None | Some(value: T)
}
