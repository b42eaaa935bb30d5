/** The engine's error classes and the result types that carry them. */
module Outcomes {

  /** The four exception classes the blob storage engine raises. */
  datatype BlobError =
    | InvalidBlobId     // the identifier fails lexical validation
    | BlobNotFound      // well-formed identifier, but nothing is stored under it
    | BlobSizeLimit     // the payload is longer than the configured ceiling
    | InvalidMimeType   // the inferred MIME type matches no allowed pattern

  datatype Option<+T> = None | Some(value: T) {
    function GetOr(default: T): T {
      if Some? then value else default
    }
  }

  /** The value an operation returns, or the error it raises. */
  datatype Result<+T> = Ok(value: T) | Err(error: BlobError)

  /** Success or failure of an operation that returns nothing. */
  datatype Outcome = Pass | Fail(error: BlobError)
}
