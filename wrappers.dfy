/** The optional value shared by the other modules: what `re.search` and a
    dictionary lookup give back when they may find nothing. */
module Wrappers {
  datatype Option<T> = None | Some(value: T)
}
