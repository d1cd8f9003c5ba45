/** Optional values, results, and the exceptions that the archive code lets
    propagate to its caller. */
module Outcomes {

  datatype Option<+T> = None | Some(value: T)

  /** The value an operation returns, or the exception it raises. */
  datatype Result<+T> = Ok(value: T) | Err(error: Error)

  /** The Python exceptions that reach the caller, each with the path it names. */
  datatype Error =
    | NotFound(path: string)       // FileNotFoundError
    | FileExists(path: string)     // FileExistsError
    | IsADirectory(path: string)   // IsADirectoryError
    | NotADirectory(path: string)  // NotADirectoryError
    | ParseError(path: string)     // xml.sax.SAXParseException
    | ValueError(path: string)     // ValueError, from urllib for a name that is no URL
}
