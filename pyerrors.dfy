/**
 * The Python exceptions that travel through the service and the router, and
 * `str(e)` for each, which is what the router copies into an HTTP error's
 * `detail`.
 */
module PyErrors {
  import opened PyStr

  datatype Exception =
    | ValueError(message: string)
      /** `binascii.Error`, a subclass of `ValueError`. */
    | BinasciiError(message: string)
    | AttributeError(message: string)
    | TypeError(message: string)
      /** FastAPI's `HTTPException(status_code, detail)`. */
    | HTTPException(statusCode: nat, detail: string)
      /** Any other exception, e.g. one raised inside the Gemini client. */
    | OtherException(message: string)

  /** `isinstance(e, ValueError)`, which `except (binascii.Error, ValueError)`
      tests. */
  predicate IsValueError(e: Exception) {
    e.ValueError? || e.BinasciiError?
  }

  /** `str(e)`. An `HTTPException` prints as "<status>: <detail>" (Starlette's
      `__str__`); every other exception prints its message. */
  function Str(e: Exception): string {
    match e
    case HTTPException(status, detail) => NatToDecimal(status) + ": " + detail
    case ValueError(m) => m
    case BinasciiError(m) => m
    case AttributeError(m) => m
    case TypeError(m) => m
    case OtherException(m) => m
  }
}
