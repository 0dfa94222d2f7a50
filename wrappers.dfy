/** The optional value used wherever the source keeps something that may be absent. */
module Wrappers {
  datatype Option<+T> = None | Some(value: T)
}
