/**
 * Properties of the policy: the precedence rules of the payload it issues,
 * and the ways an incoming request can and cannot yield claims.
 */
module PolicyProperties {
  import opened Wrappers
  import opened Claims
  import opened Codec
  import opened Policy

  /** The stepwise payload and the claim-by-claim precedence agree. */
  lemma PayloadIsLayered(defaults: Claims, claims: Claims, principal: Value, iat: int,
                         expiration: Option<int>, audience: Option<Value>)
    ensures Payload(defaults, claims, principal, iat, expiration, audience)
         == LayeredPayload(defaults, claims, principal, iat, expiration, audience)
  {
  }

  /** A claim the policy never stamps comes from the caller if the caller
      gave it, else from the defaults; no other such claim appears. */
  lemma CustomClaimPrecedence(defaults: Claims, claims: Claims, principal: Value, iat: int,
                              expiration: Option<int>, audience: Option<Value>, k: string)
    requires k !in Reserved
    ensures var p := Payload(defaults, claims, principal, iat, expiration, audience);
      && (k in p <==> k in claims || k in defaults)
      && (k in claims ==> p[k] == claims[k])
      && (k !in claims && k in defaults ==> p[k] == defaults[k])
  {
  }

  /** `sub` and `iat` are always the principal and the issuance time. */
  lemma SubjectAndIssuedAtStamped(defaults: Claims, claims: Claims, principal: Value, iat: int,
                                  expiration: Option<int>, audience: Option<Value>)
    ensures var p := Payload(defaults, claims, principal, iat, expiration, audience);
      && Subject in p && p[Subject] == principal
      && IssuedAt in p && p[IssuedAt] == Time(iat)
  {
  }

  /** With an effective expiration, `exp` is `iat` plus that many seconds;
      without one, `exp` is whatever the caller or the defaults put there. */
  lemma ExpirationStamped(defaults: Claims, claims: Claims, principal: Value, iat: int,
                          expiration: Option<int>, audience: Option<Value>)
    ensures var p := Payload(defaults, claims, principal, iat, expiration, audience);
      && (expiration.Some? ==> ExpiresAt in p && p[ExpiresAt] == Time(iat + expiration.value))
      && (expiration.None? ==>
            && (ExpiresAt in p <==> ExpiresAt in claims || ExpiresAt in defaults)
            && (ExpiresAt in claims ==> p[ExpiresAt] == claims[ExpiresAt])
            && (ExpiresAt !in claims && ExpiresAt in defaults ==> p[ExpiresAt] == defaults[ExpiresAt]))
  {
  }

  /** With an effective audience, `aud` is that audience; without one, `aud`
      is whatever the caller or the defaults put there. */
  lemma AudienceStamped(defaults: Claims, claims: Claims, principal: Value, iat: int,
                        expiration: Option<int>, audience: Option<Value>)
    ensures var p := Payload(defaults, claims, principal, iat, expiration, audience);
      && (audience.Some? ==> Audience in p && p[Audience] == audience.value)
      && (audience.None? ==>
            && (Audience in p <==> Audience in claims || Audience in defaults)
            && (Audience in claims ==> p[Audience] == claims[Audience])
            && (Audience !in claims && Audience in defaults ==> p[Audience] == defaults[Audience]))
  {
  }

  /** Under the `Authorization` contract, no header, an unparseable header
      and a scheme other than exactly `authType` all give `{}`. */
  lemma AuthorizationFailuresGiveNoClaims(policy: AuthenticationPolicy, request: Request, decode: Decoder)
    requires policy.httpHeader == AuthorizationHeader
    requires || request.authorization == Absent
             || request.authorization == Malformed
             || (request.authorization.Parsed? && request.authorization.scheme != policy.authType)
             || request.authorization == Parsed(policy.authType, "")
    ensures policy.GetClaims(request, decode) == Ok(map[])
  {
  }

  /** Under any other header name, a missing or empty header gives `{}`,
      and the parsed `Authorization` header is never consulted. */
  lemma NamedHeaderFailuresGiveNoClaims(policy: AuthenticationPolicy, request: Request, decode: Decoder)
    requires policy.httpHeader != AuthorizationHeader
    requires policy.httpHeader !in request.headers || request.headers[policy.httpHeader] == ""
    ensures policy.GetClaims(request, decode) == Ok(map[])
  {
  }

  lemma NamedHeaderIgnoresAuthorization(policy: AuthenticationPolicy, r1: Request, r2: Request, decode: Decoder)
    requires policy.httpHeader != AuthorizationHeader
    requires r1.headers == r2.headers
    ensures policy.GetClaims(r1, decode) == policy.GetClaims(r2, decode)
  {
  }

  /** A token that is present is decoded with the public key, the one
      configured algorithm, the leeway and the audience; what the library
      returns is returned, and every invalid-token failure becomes `{}`. */
  lemma DecodeOutcomeCollapses(policy: AuthenticationPolicy, request: Request, decode: Decoder, token: Token)
    requires policy.ExtractToken(request) == Some(token) && token != ""
    ensures var d := decode(token, policy.publicKey, [policy.algorithm], policy.leeway, policy.audience);
      && (d.Ok? ==> policy.GetClaims(request, decode) == Ok(d.value))
      && (d.Err? && d.error.InvalidToken? ==> policy.GetClaims(request, decode) == Ok(map[]))
      && (d.Err? && d.error.Raised? ==> policy.GetClaims(request, decode) == Err(d.error))
  {
  }

  /** Non-empty claims only ever come from a successful decode of the
      request's non-empty token. */
  lemma ClaimsComeFromDecode(policy: AuthenticationPolicy, request: Request, decode: Decoder)
    requires policy.GetClaims(request, decode).Ok?
    requires policy.GetClaims(request, decode).value != map[]
    ensures exists token :: && policy.ExtractToken(request) == Some(token) && token != ""
                            && decode(token, policy.publicKey, [policy.algorithm], policy.leeway, policy.audience)
                               == Ok(policy.GetClaims(request, decode).value)
  {
  }

  /** The request carries `token` the way the policy's header contract
      expects: as `Authorization: <authType> <token>`, or as the raw value
      of the named header. */
  predicate Carries(policy: AuthenticationPolicy, request: Request, token: Token) {
    if policy.httpHeader == AuthorizationHeader
    then request.authorization == Parsed(policy.authType, token)
    else policy.httpHeader in request.headers && request.headers[policy.httpHeader] == token
  }

  /** A request carrying a token the policy issued, once the library
      accepts it (returning the payload with its times as NumericDates),
      resolves to those claims: `sub` is the principal, `iat` the issuance
      time, `exp` the issuance time plus the effective expiration. */
  lemma IssuedTokenResolves(policy: AuthenticationPolicy, principal: Value, expiration: Option<Duration>,
                            audience: Value, claims: Claims, now: int, encode: Encoder, decode: Decoder,
                            request: Request)
    requires var payload := Payload(policy.defaultClaims, claims, principal, now,
                                    policy.EffectiveExpiration(expiration), policy.EffectiveAudience(audience));
             var token := encode(payload, policy.privateKey, policy.algorithm);
             && token != ""
             && decode(token, policy.publicKey, [policy.algorithm], policy.leeway, policy.audience)
                == Ok(NumericDates(payload))
             && Carries(policy, request, token)
    ensures var payload := Payload(policy.defaultClaims, claims, principal, now,
                                   policy.EffectiveExpiration(expiration), policy.EffectiveAudience(audience));
            policy.GetClaims(request, decode) == Ok(NumericDates(payload))
    ensures policy.UnauthenticatedUserid(request, decode) == Ok(principal)
    ensures var resolved := policy.GetClaims(request, decode).value;
            && IssuedAt in resolved && resolved[IssuedAt] == Int(now)
            && var e := policy.EffectiveExpiration(expiration);
               e.Some? ==> ExpiresAt in resolved && resolved[ExpiresAt] == Int(now + e.value)
  {
  }

  /** Every principal the policy issues a token for can authenticate: some
      request carries that token, and it resolves to the principal. */
  lemma IssuedPrincipalAuthenticates(policy: AuthenticationPolicy, principal: Value, expiration: Option<Duration>,
                                     audience: Value, claims: Claims, now: int, encode: Encoder, decode: Decoder)
    requires var payload := Payload(policy.defaultClaims, claims, principal, now,
                                    policy.EffectiveExpiration(expiration), policy.EffectiveAudience(audience));
             var token := encode(payload, policy.privateKey, policy.algorithm);
             && token != ""
             && decode(token, policy.publicKey, [policy.algorithm], policy.leeway, policy.audience)
                == Ok(NumericDates(payload))
    ensures var token := encode(Payload(policy.defaultClaims, claims, principal, now,
                                        policy.EffectiveExpiration(expiration), policy.EffectiveAudience(audience)),
                                policy.privateKey, policy.algorithm);
            exists request :: Carries(policy, request, token) && policy.UnauthenticatedUserid(request, decode) == Ok(principal)
  {
    var token := encode(Payload(policy.defaultClaims, claims, principal, now,
                                policy.EffectiveExpiration(expiration), policy.EffectiveAudience(audience)),
                        policy.privateKey, policy.algorithm);
    var request := if policy.httpHeader == AuthorizationHeader
                   then Request(Parsed(policy.authType, token), map[])
                   else Request(Absent, map[policy.httpHeader := token]);
    IssuedTokenResolves(policy, principal, expiration, audience, claims, now, encode, decode, request);
  }
}
