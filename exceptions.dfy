/** Python's way of failing, as values: a call either returns a value or raises. */
module Exceptions {

  datatype Option<+T> = None | Some(value: T)

  /** The exception kinds the contact book raises or catches. */
  datatype Exception =
    | ValueError(msg: string)
    | KeyError
    | IndexError
    | OverflowError(msg: string)

  /** What a Python call did: returned a value, or raised an exception. */
  datatype Outcome<+T> = Returned(value: T) | Raised(exc: Exception)

  /** `str(e)`: the message an exception was raised with; a bare `KeyError` or
      `IndexError` prints as the empty string. */
  function Str(e: Exception): string
  {
    match e
    case ValueError(m) => m
    case OverflowError(m) => m
    case KeyError => ""
    case IndexError => ""
  }
}
