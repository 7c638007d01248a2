/** The error taxonomy the core raises: the typed errors of the application's
    error module, as values rather than exceptions. */
module Errors {

  /** A typed application error carrying its human-readable message. */
  datatype Error =
    | NotFound(message: string)
    | BadRequest(message: string)

  /** Either a computed value or the error the source would have thrown. */
  datatype Result<+T> = Ok(value: T) | Err(error: Error)
}
