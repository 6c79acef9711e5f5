/** The optional value used wherever the source has a lookup that may find nothing
    or a conversion that may raise. */
module Wrappers {

  datatype Option<+T> = None | Some(value: T)
}
