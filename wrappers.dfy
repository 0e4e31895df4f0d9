/** The optional value shared by the memo-store modules. */
module Wrappers {

  datatype Option<T> = None | Some(value: T)
}
