/** Failure-carrying values shared by the whole model: Python's `None` and
    the exceptions the modelled code raises or lets escape. */
module Wrappers {

  datatype Option<+T> = None | Some(value: T) {
    /** Python's `x or default` for a value that is either a list or `None`. */
    function GetOr(default: T): T {
      match this
      case Some(v) => v
      case None => default
    }
  }

  /** The Python exceptions that can leave a modelled operation. */
  datatype PyError =
    | TypeError                    // `None + '/bugs'` and friends
    | IndexError                   // `lines[0]`, `string[2]` out of range
    | ValueError                   // raised explicitly, or a failed tuple unpacking
    | FileNotFoundError(path: string)
    | UnicodeDecodeError(path: string)

  /** A Python call either returns a value or raises. */
  datatype Result<+T> = Ok(value: T) | Raise(error: PyError)
}
