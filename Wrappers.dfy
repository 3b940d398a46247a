/** The optional value shared by the other modules: Python's `None` and
    JavaScript's `undefined` where the source produces one. */
module Wrappers {
  datatype Option<T> = None | Some(value: T)
}
