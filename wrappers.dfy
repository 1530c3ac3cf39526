/** The optional value used wherever the program may come up empty. */
module Wrappers {

  datatype Option<T> = None | Some(value: T)
}
