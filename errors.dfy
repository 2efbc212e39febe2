/** The Python exceptions the modelled code can raise, and how a call ends. */
module Errors {
  datatype Exc =
    | KeyError               // set.remove of a missing element
    | IndexError             // a list index past the end
    | ValueError             // int() of a string that is not an integer literal
    | TypeError              // a `str` method argument given to a `bytes` value
    | ConnectionClosedOK     // a send on, or a read from, a channel closed normally
    | ConnectionClosedError  // the same for a channel closed abnormally

  /** How a call ends: normally, or by raising an exception. */
  datatype Completion = Normal | Raised(exc: Exc)
}
