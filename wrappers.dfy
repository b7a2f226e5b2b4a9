/** The optional result of a pattern search: `re.search` returning a match or `None`. */
module Wrappers {
  datatype Option<T> = None | Some(value: T)
}
