/** The optional value used for absent form fields, failed lookups and empty query results. */
module Wrappers {

  datatype Option<+T> = None | Some(value: T)
}
