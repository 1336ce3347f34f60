/** Option and the outcome of a call that may raise an uncaught exception. */
module Wrappers {

  datatype Option<+T> = None | Some(value: T)

  /** The result of a Python call: it returned a value, or it raised an exception that
      nothing on the way up catches, so that the server process ends. */
  datatype Outcome<+T> = Return(value: T) | Crash
}
