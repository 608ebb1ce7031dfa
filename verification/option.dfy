/** A value that may be absent: a form field that was not submitted, an
    environment variable that is not set, a query that found no row. */
module Opt {
  datatype Option<+T> = None | Some(value: T)
}
