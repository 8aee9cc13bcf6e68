/** The optional value used wherever the source holds "an item or null". */
module Wrappers {
  datatype Option<+T> = None | Some(value: T)
}
