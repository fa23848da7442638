/** The optional value used for the links of the segment chain and for search results. */
module Wrappers {

  datatype Option<+T> = None | Some(value: T)
}
