/** The exceptions the package raises or lets through, as one closed error type. */
module Errors {
  import Text

  /** The signing library's failures; every one of them is a `jwt.PyJWTError`. */
  datatype JwtError =
    | DecodeError(reason: string)
    | InvalidAlgorithm(reason: string)
    | InvalidSignature
    | ExpiredSignature
    | ImmatureSignature
    | MissingRequiredClaim(claim: string)
    | InvalidIssuedAt(reason: string)
    | InvalidAudience(reason: string)
    | InvalidToken(reason: string)

  /** Any exception: a signing-library failure, a built-in Python exception, a
      FastAPI `HTTPException`, or a bare `Exception(message)`. */
  datatype Error =
    | Jwt(jwt: JwtError)
    | TypeErr(msg: string)
    | ValueErr(msg: string)
    | OverflowErr(msg: string)
    | AttributeErr(msg: string)
    | NotImplementedErr(msg: string)
    | Http(status: int, detail: string)
    | Plain(msg: string)

  /** `str(e)` for a signing-library failure. */
  function JwtMessage(e: JwtError): string {
    match e
    case DecodeError(reason) => reason
    case InvalidAlgorithm(reason) => reason
    case InvalidSignature => "Signature verification failed"
    case ExpiredSignature => "Signature has expired"
    case ImmatureSignature => "The token is not yet valid (nbf)"
    case MissingRequiredClaim(claim) => "Token is missing the \"" + claim + "\" claim"
    case InvalidIssuedAt(reason) => reason
    case InvalidAudience(reason) => reason
    case InvalidToken(reason) => reason
  }

  /** `str(e)`, which is what an f-string interpolates when one exception wraps another. */
  function Message(e: Error): string {
    match e
    case Jwt(j) => JwtMessage(j)
    case TypeErr(m) => m
    case ValueErr(m) => m
    case OverflowErr(m) => m
    case AttributeErr(m) => m
    case NotImplementedErr(m) => m
    case Http(status, detail) => Text.IntToString(status) + ": " + detail
    case Plain(m) => m
  }

  /** `Exception(f"{context}: {cause}")`: a bare exception that carries the cause's text. */
  function Wrap(context: string, cause: Error): (r: Error)
    ensures r.Plain? && context + ": " <= r.msg
    ensures r.msg[|context| + 2..] == Message(cause)
  {
    Plain(context + ": " + Message(cause))
  }
}
