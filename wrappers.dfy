/** Option and Result, the outcome types every query and handler of the ledger returns. */
module Wrappers {

  /** Conventional Some/None, for a query that may find no row. */
  datatype Option<+T> = None | Some(value: T)

  /** Either a value or the error a handler raises instead. */
  datatype Result<+R, +E> = Ok(value: R) | Err(error: E)
}
