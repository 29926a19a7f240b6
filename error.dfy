/** The crate's `Error` enum (src/error.rs). */
module Errors {
  /** Why a numeric conversion failed. The source carries this as a message string;
      the model keeps only which conversion produced it. */
  datatype ConvertCause =
    | OutOfRange   // a `TryFromIntError` from an integer narrowing
    | AnsiToUnix   // the ANSI epoch shift would go below the UNIX epoch
    | UnixToAnsi   // the UNIX epoch shift would overflow u64 nanoseconds

  datatype Error =
    | Parse(message: string)
    | ConvertChrono
    | Convert(cause: ConvertCause)
    | TimeWentBackward
}
