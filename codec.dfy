/**
 * The interface of the JWT library the policy calls. Signing and
 * verification are not modelled: `jwt.encode` and `jwt.decode` are
 * function values supplied by the caller of the policy.
 */
module Codec {
  import opened Wrappers
  import opened Claims

  type Token = string
  type Key = string
  type Algorithm = string

  /** The kinds of `jwt.InvalidTokenError` that `jwt.decode` signals. */
  datatype TokenFailure =
    | Undecodable
    | InvalidSignature
    | Expired
    | AudienceMismatch
    | OtherInvalidToken(name: string)

  /** What `jwt.decode` can raise: an `InvalidTokenError` of some kind, or
      any other exception (a key or configuration error, say). */
  datatype DecodeError =
    | InvalidToken(failure: TokenFailure)
    | Raised(name: string)

  /** `jwt.encode(payload, key, algorithm=...)`. */
  type Encoder = (Claims, Key, Algorithm) -> Token

  /** `jwt.decode(token, key, algorithms=..., leeway=..., audience=...)`. */
  type Decoder = (Token, Key, seq<Algorithm>, int, Value) -> Result<Claims, DecodeError>

  const NotBefore := "nbf"

  /** How `jwt.encode` writes the time claims `exp`, `iat` and `nbf`: a
      `datetime` there becomes an integer NumericDate, so that is what a
      later `jwt.decode` gives back. Every other claim is left as it is. */
  function NumericDates(payload: Claims): (r: Claims)
    ensures r.Keys == payload.Keys
  {
    map k | k in payload ::
      if k in {ExpiresAt, IssuedAt, NotBefore} && payload[k].Time? then Int(payload[k].seconds) else payload[k]
  }
}
