/** The optional values of the service: a record that may be missing, a query that may answer null. */
module Wrappers {

  datatype Option<+T> = None | Some(value: T)
}
