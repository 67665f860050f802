/** The optional value used for pandas' missing cells, for a number the operator may
    fail to type, and for an overall rate that is only computed over a non-empty table. */
module Wrappers {

  datatype Option<+T> = None | Some(value: T)
}
