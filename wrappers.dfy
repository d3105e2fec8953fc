/** The optional value used wherever LSSFile.py returns `None` for "not found". */
module Wrappers {
  datatype Option<T> = None | Some(value: T)
}
