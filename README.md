# pyramid_jwt authentication policy, modelled in Dafny

`JWTAuthenticationPolicy` is a Pyramid authentication policy that issues and
accepts JSON Web Tokens. This project models its rule logic, independent of the
cryptography:

- **configuration**: the constructor's normalisation of keys, expiration,
  audience and the default-claims template;
- **issuing**: the payload `create_token` builds, a layered merge with a fixed
  precedence (default claims < caller claims < `sub`, `iat`, and `exp`/`aud`
  only when there is an effective expiration/audience);
- **resolving**: the branching of `get_claims` over the request's header,
  where every failure collapses to empty claims, and `unauthenticated_userid`,
  `remember`, `forget`.

Files:

- `wrappers.dfy` (`Wrappers`): `Option` and `Result`.
- `claims.dfy` (`Claims`): claim values as Python values (`Null` is `None`,
  `Time` a `datetime` in whole seconds), Python truthiness, the reserved claim
  names, and durations (`int` seconds or `timedelta`).
- `codec.dfy` (`Codec`): the JWT library's interface. `jwt.encode` and
  `jwt.decode` are function values (`Encoder`, `Decoder`) passed in by the
  caller. The failure kinds of `jwt.decode` are modelled: invalid-token errors,
  and any other exception. `NumericDates` states how `jwt.encode` writes the
  `datetime` values of `exp`, `iat` and `nbf`: as integer NumericDates, which
  is what `jwt.decode` later returns.
- `policy.dfy` (`Policy`): the policy as a class.
  - Its configuration is held in `const` fields that the constructor assigns.
  - `CreateToken` builds the payload step by step, as `create_token` does.
  - `Payload` is the function that specifies that payload. `LayeredPayload`
    defines the same payload claim by claim.
  - The inbound path is modelled as functions: `ExtractToken`, `GetClaims`,
    `UnauthenticatedUserid`, `Remember` and `Forget`.
- `properties.dfy` (`PolicyProperties`): the precedence and resolution
  properties, and the round trip from issuing a token to resolving it. The
  round trip assumes that `jwt.decode` accepts the token the policy issued and
  returns its payload with NumericDates for the times.

Inputs the model takes as parameters:

- The clock (`datetime.utcnow()`) is the `now` parameter, in integer seconds.
- The request's parsed `authorization` attribute is the `Authorization`
  datatype: `Absent`, `Malformed` (webob raises `ValueError`) or
  `Parsed(scheme, token)`.
- `request.headers` is a map.
- `request.jwt_claims` is the result of `GetClaims`.

Behaviour of `src/pyramid_jwt/policy.py` that the model keeps exactly:

- An explicit `expiration` or `audience` argument of `create_token` is used
  only when it is **truthy** (lines 81-82). `0`, `timedelta(0)`, `""` and
  `None` all fall back to the policy's value.
- The scheme must equal `auth_type` **exactly**, case included (line 107).
  The header name selects the `Authorization` contract only when it is exactly
  `"Authorization"` (line 100). Any other spelling, such as `"authorization"`,
  reads the raw header value as the token.
- `get_claims` catches only `jwt.InvalidTokenError` (line 122). Any other
  exception of `jwt.decode` propagates to the caller. The model returns it as
  `Err(Raised(..))`, and `UnauthenticatedUserid` passes it on.
- `public_key` falls back to `private_key` only when it is `None` (line 55);
  an empty key is kept. The default-claims template, the expiration and the
  audience go by truthiness instead (lines 58, 61, 67).
- `unauthenticated_userid` returns `None` (`Null`) both when `sub` is missing
  and when `sub` is `None`, as `dict.get` does.
- Python binds the keyword arguments `self`, `principal`, `expiration` and
  `audience` to `create_token`'s own parameters. Its `**claims` therefore
  never holds those names, and `CreateToken` requires this.

## Model

| member | source | states |
|---|---|---|
| `Policy.AuthenticationPolicy.constructor` | src/pyramid_jwt/policy.py:40-74 | public key is the given one unless `None`, else the private key; a falsy default-claims template becomes `{}`; a falsy expiration or audience becomes `None`; a truthy expiration is stored as a `timedelta` of the same number of seconds; algorithm, leeway, header name and scheme are stored as given (defaults `HS512`, `0`, `Authorization`, `JWT`) |
| `Claims.Duration.AsDelta` | src/pyramid_jwt/policy.py:62-63 | the `isinstance` conversion: a plain number becomes a `timedelta` of that many seconds, a `timedelta` is kept |
| `Policy.AuthenticationPolicy.EffectiveExpiration` | src/pyramid_jwt/policy.py:81-85 | a truthy `expiration` argument wins, in seconds; otherwise the policy's expiration is used; the result is never a zero duration |
| `Policy.AuthenticationPolicy.EffectiveAudience` | src/pyramid_jwt/policy.py:82 | a truthy `audience` argument wins; otherwise the policy's audience is used, or none; the result is always truthy |
| `Policy.AuthenticationPolicy.CreateToken` | src/pyramid_jwt/policy.py:76-94 | the token is the encoding, with the private key and the configured algorithm, of exactly `Payload` of the defaults, the caller claims, the principal, the issuance time and the effective expiration and audience |
| `PolicyProperties.PayloadIsLayered` | src/pyramid_jwt/policy.py:77-88 | the stepwise payload equals the claim-by-claim precedence definition: derived fields, then caller claims, then defaults, with no other keys |
| `PolicyProperties.CustomClaimPrecedence` | src/pyramid_jwt/policy.py:77-78 | for every key other than `sub`/`iat`/`exp`/`aud`: present iff given by the caller or the defaults, with the caller's value winning |
| `PolicyProperties.SubjectAndIssuedAtStamped` | src/pyramid_jwt/policy.py:79-80 | `sub` is always the principal and `iat` always the issuance time, whatever the caller or the defaults supplied |
| `PolicyProperties.ExpirationStamped` | src/pyramid_jwt/policy.py:83-86 | with an effective expiration, `exp == iat + expiration`; without one, `exp` is the caller's value, else the default's, else absent |
| `PolicyProperties.AudienceStamped` | src/pyramid_jwt/policy.py:87-88 | with an effective audience, `aud` is overwritten with it; without one, `aud` is the caller's value, else the default's, else absent |
| `Policy.AuthenticationPolicy.ExtractToken` | src/pyramid_jwt/policy.py:100-110 | under the `Authorization` contract a token is found iff the header parsed and its scheme equals `auth_type` exactly, and it is the parsed token; under a named header a token is found iff that header is present, and it is the raw value |
| `Policy.AuthenticationPolicy.GetClaims` | src/pyramid_jwt/policy.py:99-124 | no token or an empty token gives `{}`; the only error that escapes is one that is not an invalid-token error |
| `PolicyProperties.AuthorizationFailuresGiveNoClaims` | src/pyramid_jwt/policy.py:100-112 | absent header, unparseable header, scheme mismatch and empty token each give `{}` |
| `PolicyProperties.NamedHeaderFailuresGiveNoClaims` | src/pyramid_jwt/policy.py:109-112 | under a named header, a missing or empty header gives `{}` |
| `PolicyProperties.NamedHeaderIgnoresAuthorization` | src/pyramid_jwt/policy.py:109-110 | under a named header, the parsed `Authorization` header has no influence on the claims |
| `PolicyProperties.DecodeOutcomeCollapses` | src/pyramid_jwt/policy.py:113-124 | a present token is decoded with the public key, `[algorithm]`, the leeway and the policy audience; decoded claims are returned exactly, every invalid-token error becomes `{}`, any other exception propagates |
| `PolicyProperties.ClaimsComeFromDecode` | src/pyramid_jwt/policy.py:99-124 | non-empty claims only come from a successful decode of the request's non-empty token |
| `Policy.AuthenticationPolicy.UnauthenticatedUserid` | src/pyramid_jwt/policy.py:126-127 | the user id is the `sub` of the request's claims, `None` when missing; it fails exactly when resolving the claims does |
| `Policy.AuthenticationPolicy.Remember` | src/pyramid_jwt/policy.py:129-135 | returns the empty list of headers for all arguments |
| `Policy.AuthenticationPolicy.Forget` | src/pyramid_jwt/policy.py:137-143 | returns the empty list of headers for all arguments |
| `PolicyProperties.IssuedTokenResolves` | src/pyramid_jwt/policy.py:76-127 | a request that carries an issued token as its header contract expects (`Authorization: <auth_type> <token>`, or raw in the named header) resolves to the payload with NumericDates, provided the library accepts that token and returns it so; then the user id is the principal, `iat` is the issuance time, and `exp` is the issuance time plus the effective expiration |
| `PolicyProperties.IssuedPrincipalAuthenticates` | src/pyramid_jwt/policy.py:76-127 | for every principal the policy issues a token for, some request carries that token and authenticates as that principal, under either header contract |

## Left out

- `PyramidJSONEncoderFactory`, `json_encoder_factory` and the `json_encoder`
  argument: these are Pyramid renderer-registry glue; the encoder strategy is
  subsumed by the `Encoder` parameter.
- The bodies of `jwt.encode` and `jwt.decode` (signing, signature, expiration,
  audience and leeway checks): a foreign cryptographic library, modelled as
  function parameters. Properties that depend on them (expiry over time,
  tampering, audience mismatch) are therefore not proved.
- The ASCII decoding of the encoded token: a bytes/str artefact of Python 2/3.
- Logging in `get_claims` and the `warnings.warn` calls in `remember` and
  `forget`: I/O; only return values are modelled. `request.remote_addr` is
  therefore not part of `Request`.
- `datetime.utcnow()`: the ambient clock; `now` is a parameter.
- Microseconds and floating-point durations: times and durations are whole
  seconds, and `leeway` is an integer number of seconds.
- The `callback` argument, group resolution inherited from
  `CallbackAuthenticationPolicy`, and the `request.jwt_claims` caching: framework
  code that is not shown.
- webob's parsing of the `Authorization` header and its case-insensitive
  `request.headers` lookup: framework code; the parse result is an input and
  the headers are an exact-key map.
- `OverflowError` from `datetime`: times and durations are unbounded
  integers here. `timedelta(seconds=...)` at lines 63 and 85 raises for more
  than 999999999 days. `iat + expiration` at line 86 raises past year 9999.
  The model constructs the policy and stamps `exp` in both cases.
- Exceptions of `jwt.encode`, which `create_token` lets through (an
  unsupported algorithm, or a key that does not fit it): `Encoder` is a total
  function. Only `jwt.decode`'s failures are modelled.
- Reassigning a policy attribute after construction: the configuration is
  immutable here (`const` fields).
