/** Option and Result wrappers, and the two Python exception classes the
    filename parsers can raise. Callers in the source catch only ValueError,
    so an IndexError is kept apart from it. */
module Errors {

  datatype Option<+T> = None | Some(value: T)

  /** Why a ValueError was raised. */
  datatype Reason =
    | UnrecognizedExtension   // not .whl, .exe, .zip or .tar.gz
    | NameMismatch            // the parsed name is not the expected project name
    | MalformedWheel          // too few components, or a python tag that is too short
    | UnsupportedPythonTag    // a python tag the decoder does not know
    | NotEnoughValues         // `a, b = s.rsplit(sep, 1)` where `sep` does not occur in `s`
    | InvalidVersion          // a string outside the version grammar handed to the version parser
    | UnstampableKind         // a development build that is not a wheel

  datatype Failure = ValueError(reason: Reason) | IndexError

  datatype Result<+T> = Ok(value: T) | Err(error: Failure)
}
