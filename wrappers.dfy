/** Option and Result values standing in for `parse_logs`'s `KeyError` and the errors `decrypt_proctitle`'s bare `except` catches. */
module Wrappers {

  datatype Option<+T> = None | Some(value: T)

  datatype Result<+R, +E> = Success(value: R) | Failure(error: E)
}
