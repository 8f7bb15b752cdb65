/** Option and Result, used for the optional fields of a schedule's `run_at`
    record and for the validator's verdict. */
module Wrappers {

  datatype Option<+T> = None | Some(value: T)

  datatype Result<+R, +E> = Success(value: R) | Failure(error: E)
}
