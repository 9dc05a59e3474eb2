/** What a Ruby method call ends in: a value, `nil`, or a raised exception. */
module Outcomes {

  datatype Option<+T> = None | Some(value: T)

  /** The exceptions the binding raises. */
  datatype Error =
    | JournalError(code: int)   // a negative return code from the journal library
    | ArgumentError             // an unrecognised argument (an unknown seek target)
    | NoMethodError(name: string)
    | StandardError             // an unsupported size_t width

  datatype Outcome<+T> = Returned(value: T) | ReturnedNil | Raised(error: Error)
}
