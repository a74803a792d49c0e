/**
 * `JWTAuthenticationPolicy`: its configuration, the payload it builds when it
 * issues a token, and the way it turns an incoming request into claims and a
 * user id.
 */
module Policy {
  import opened Wrappers
  import opened Claims
  import opened Codec

  /** The header name that selects the scheme-prefixed contract. */
  const AuthorizationHeader := "Authorization"

  /** Keyword arguments named like a parameter of `create_token` bind to
      that parameter, so its `**claims` never holds these names. */
  const KeywordParameters: set<string> := {"self", "principal", "expiration", "audience"}

  /** What the request's parsed `authorization` attribute gives: no header,
      a header the framework cannot parse (it raises `ValueError`), or a
      `(scheme, token)` pair. */
  datatype Authorization = Absent | Malformed | Parsed(scheme: string, token: string)

  /** The parts of a request the policy looks at. */
  datatype Request = Request(authorization: Authorization, headers: map<string, string>)

  /** What `remember` and `forget` return: a list of response headers. */
  type Headers = seq<(string, string)>

  /**
   * The payload `create_token` signs, built in the order `create_token` builds it:
   * a copy of the default claims, updated with the caller's claims, then `sub`
   * and `iat` stamped, then `exp` and `aud` when an effective expiration
   * (in seconds) and an effective audience exist.
   */
  function Payload(defaults: Claims, claims: Claims, principal: Value, iat: int,
                   expiration: Option<int>, audience: Option<Value>): Claims
  {
    var merged := defaults + claims;
    var stamped := merged[Subject := principal][IssuedAt := Time(iat)];
    var expiring := if expiration.Some? then stamped[ExpiresAt := Time(iat + expiration.value)] else stamped;
    if audience.Some? then expiring[Audience := audience.value] else expiring
  }

  /** The same payload, defined claim by claim from its precedence order:
      policy-derived fields, then caller claims, then the default template. */
  function LayeredPayload(defaults: Claims, claims: Claims, principal: Value, iat: int,
                          expiration: Option<int>, audience: Option<Value>): Claims
  {
    var derived := {Subject, IssuedAt}
      + (if expiration.Some? then {ExpiresAt} else {})
      + (if audience.Some? then {Audience} else {});
    map k | k in derived + claims.Keys + defaults.Keys ::
      if k == Subject then principal
      else if k == IssuedAt then Time(iat)
      else if k == ExpiresAt && expiration.Some? then Time(iat + expiration.value)
      else if k == Audience && audience.Some? then audience.value
      else if k in claims then claims[k]
      else defaults[k]
  }

  class AuthenticationPolicy {
    const privateKey: Key
    const publicKey: Key
    const algorithm: Algorithm
    const leeway: int
    /** Never empty-by-accident: a falsy template is stored as `{}`. */
    const defaultClaims: Claims
    const httpHeader: string
    const authType: string
    /** `None`, or a truthy `timedelta`. */
    const expiration: Option<Duration>
    /** `None` (`Null`), or a truthy audience. */
    const audience: Value

    /** What the constructor guarantees about the stored expiration and
        audience. */
    predicate Normalised() {
      && (expiration.Some? ==> expiration.value.Delta? && expiration.value.Truthy())
      && (audience.Truthy() || audience == Null)
    }

    constructor (privateKey: Key, publicKey: Option<Key> := None, algorithm: Algorithm := "HS512",
                 leeway: int := 0, expiration: Option<Duration> := None,
                 defaultClaims: Option<Claims> := None, httpHeader: string := AuthorizationHeader,
                 authType: string := "JWT", audience: Value := Null)
      ensures this.privateKey == privateKey
      ensures this.publicKey == if publicKey.Some? then publicKey.value else privateKey
      ensures this.algorithm == algorithm && this.leeway == leeway
      ensures this.defaultClaims == if defaultClaims.Some? then defaultClaims.value else map[]
      ensures this.httpHeader == httpHeader && this.authType == authType
      ensures this.expiration.Some? <==> expiration.Some? && expiration.value.Truthy()
      ensures this.expiration.Some? ==> this.expiration.value.TotalSeconds() == expiration.value.TotalSeconds()
      ensures this.audience == if audience.Truthy() then audience else Null
      ensures Normalised()
    {
      this.privateKey := privateKey;
      this.publicKey := if publicKey.Some? then publicKey.value else privateKey;
      this.algorithm := algorithm;
      this.leeway := leeway;
      this.defaultClaims := if defaultClaims.Some? && defaultClaims.value != map[] then defaultClaims.value else map[];
      this.httpHeader := httpHeader;
      this.authType := authType;
      if expiration.Some? && expiration.value.Truthy() {
        this.expiration := Some(expiration.value.AsDelta());
      } else {
        this.expiration := None;
      }
      if audience.Truthy() {
        this.audience := audience;
      } else {
        this.audience := Null;
      }
    }

    /** `expiration or self.expiration`, kept only when truthy, in seconds. */
    function EffectiveExpiration(requested: Option<Duration>): (r: Option<int>)
      ensures r.Some? ==> r.value != 0
      ensures requested.Some? && requested.value.Truthy() ==> r == Some(requested.value.TotalSeconds())
      ensures !(requested.Some? && requested.value.Truthy()) && Normalised() ==>
        r == if expiration.Some? then Some(expiration.value.TotalSeconds()) else None
    {
      var e := if requested.Some? && requested.value.Truthy() then requested else expiration;
      if e.Some? && e.value.Truthy() then Some(e.value.AsDelta().TotalSeconds()) else None
    }

    /** `audience or self.audience`, kept only when truthy. */
    function EffectiveAudience(requested: Value): (r: Option<Value>)
      ensures r.Some? ==> r.value.Truthy()
      ensures requested.Truthy() ==> r == Some(requested)
      ensures !requested.Truthy() && Normalised() ==>
        r == if audience == Null then None else Some(audience)
    {
      var a := if requested.Truthy() then requested else audience;
      if a.Truthy() then Some(a) else None
    }

    /** `create_token`: builds the payload step by step and signs it. */
    method CreateToken(principal: Value, expiration: Option<Duration>, audience: Value,
                       claims: Claims, now: int, encode: Encoder) returns (token: Token)
      requires claims.Keys !! KeywordParameters
      ensures token == encode(Payload(defaultClaims, claims, principal, now,
                                      EffectiveExpiration(expiration), EffectiveAudience(audience)),
                              privateKey, algorithm)
    {
      var payload := defaultClaims;
      payload := payload + claims;
      payload := payload[Subject := principal];
      var iat := now;
      payload := payload[IssuedAt := Time(iat)];
      var exp := if expiration.Some? && expiration.value.Truthy() then expiration else this.expiration;
      var aud := if audience.Truthy() then audience else this.audience;
      if exp.Some? && exp.value.Truthy() {
        var delta := exp.value.AsDelta();
        payload := payload[ExpiresAt := Time(iat + delta.TotalSeconds())];
      }
      if aud.Truthy() {
        payload := payload[Audience := aud];
      }
      token := encode(payload, privateKey, algorithm);
    }

    /** The candidate token of a request: the token of an `Authorization`
        header whose scheme is exactly `authType`, or the raw value of the
        configured header. */
    function ExtractToken(request: Request): (r: Option<Token>)
      ensures httpHeader == AuthorizationHeader ==>
        (r.Some? <==> request.authorization.Parsed? && request.authorization.scheme == authType)
      ensures httpHeader == AuthorizationHeader && r.Some? ==> r.value == request.authorization.token
      ensures httpHeader != AuthorizationHeader ==>
        (r.Some? <==> httpHeader in request.headers)
      ensures httpHeader != AuthorizationHeader && r.Some? ==> r.value == request.headers[httpHeader]
    {
      if httpHeader == AuthorizationHeader then
        match request.authorization
        case Absent => None
        case Malformed => None
        case Parsed(scheme, token) => if scheme != authType then None else Some(token)
      else if httpHeader in request.headers then Some(request.headers[httpHeader])
      else None
    }

    /** `get_claims`: the decoded claims of the request's token, `{}` when
        there is no non-empty token or the library rejects it as invalid.
        Any other exception of the library propagates. */
    function GetClaims(request: Request, decode: Decoder): (r: Result<Claims, DecodeError>)
      ensures r.Err? ==> r.error.Raised?
      ensures (ExtractToken(request) == None || ExtractToken(request) == Some("")) ==> r == Ok(map[])
    {
      match ExtractToken(request)
      case None => Ok(map[])
      case Some(token) =>
        if token == "" then Ok(map[])
        else
          match decode(token, publicKey, [algorithm], leeway, audience)
          case Ok(claims) => Ok(claims)
          case Err(InvalidToken(_)) => Ok(map[])
          case Err(e) => Err(e)
    }

    /** `unauthenticated_userid`: the `sub` claim of the request's claims,
        `None` when there is none. */
    function UnauthenticatedUserid(request: Request, decode: Decoder): (r: Result<Value, DecodeError>)
      ensures r.Err? <==> GetClaims(request, decode).Err?
      ensures r.Ok? ==> var claims := GetClaims(request, decode).value;
        r.value == if Subject in claims then claims[Subject] else Null
    {
      match GetClaims(request, decode)
      case Ok(claims) => Ok(if Subject in claims then claims[Subject] else Null)
      case Err(e) => Err(e)
    }

    /** `remember`: tokens are handed out by the application, so there is
        nothing to remember. */
    function Remember(request: Request, principal: Value, extra: Claims): (r: Headers)
      ensures r == []
    {
      []
    }

    /** `forget`: tokens are discarded by the client, so there is nothing
        to forget. */
    function Forget(request: Request): (r: Headers)
      ensures r == []
    {
      []
    }
  }
}
