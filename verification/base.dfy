/** Values shared by every module: Python's exceptions as the modelled code
    distinguishes them, and the result of a Python call that may raise. */
module Base {

  datatype Option<T> = None | Some(value: T)

  /** The exception classes the modelled code tells apart. */
  datatype Error =
    | ResourceExhausted     // google.api_core.exceptions.ResourceExhausted (HTTP 429)
    | ServiceUnavailable    // google.api_core.exceptions.ServiceUnavailable (HTTP 503)
    | RetryError            // tenacity.RetryError: the attempt budget ran out
    | ValueError            // the client constructor found no API key
    | Other(name: string)   // anything else: a safety block, a bad file, an SDK failure

  /** What a Python call does: return a value or raise an exception. */
  datatype Result<T> = Ok(value: T) | Raised(error: Error)
}
