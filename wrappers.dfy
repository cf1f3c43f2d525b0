/** SQL NULL is modelled as `None`: every nullable column has an `Option` type. */
module Wrappers {

  datatype Option<+T> = None | Some(value: T)
}
