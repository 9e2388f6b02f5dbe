/**
 * Common.Providers.TokenProvider: issues signed access tokens from claim
 * sets, validates tokens against the configured policy, reads a valid
 * token's claims and derives the external-login identity from them.
 *
 * The provider's only state is the TokenInfo it copies from the options
 * once; every operation is a function of that policy, the JWT library
 * (see IdentityModel), the clock reading `now` and its own arguments.
 */
module Providers {
  import opened Wrappers
  import opened Platform
  import opened Claims
  import opened IdentityModel

  /** Common.Options.JwtTokenOptions, as bound from configuration. */
  datatype JwtTokenOptions = JwtTokenOptions(
    validateIssuer: bool,
    validateAudience: bool,
    validateLifetime: bool,
    validateIssuerSigningKey: bool,
    lifetime: Int32,
    lifetimeExternal: Int32,
    issuer: string,
    audience: string,
    issuerSecurityKey: string,
    authority: string)

  /** The policy the provider keeps: the same ten fields. */
  datatype TokenInfo = TokenInfo(
    audience: string,
    issuer: string,
    issuerSecurityKey: string,
    lifetime: Int32,
    lifetimeExternal: Int32,
    validateAudience: bool,
    validateIssuer: bool,
    validateLifetime: bool,
    validateIssuerSigningKey: bool,
    authority: string)

  /** A TokenProvider is its read-only TokenInfo. */
  datatype TokenProvider = TokenProvider(tokenInfo: TokenInfo)

  /** The serialized token and its absolute expiry. */
  datatype AccessTokenModel = AccessTokenModel(accessToken: string, expireAt: Instant)

  /** The identity GetTokenExternalLoginInfo derives. */
  datatype TokenExternalLoginInfo = TokenExternalLoginInfo(email: string, userId: string)

  /** A KeyValuePair<object, object> of claim input. */
  datatype KeyValuePair = KeyValuePair(key: string, value: string)

  /** The prefix GetClaims removes before reading. */
  const BearerPrefix: string := "Bearer "

  // ---------------------------------------------------------------------
  // Construction

  /** The options a TokenInfo holds, read back field by field. */
  function OptionsOf(info: TokenInfo): JwtTokenOptions
  {
    JwtTokenOptions(info.validateIssuer, info.validateAudience, info.validateLifetime,
      info.validateIssuerSigningKey, info.lifetime, info.lifetimeExternal, info.issuer,
      info.audience, info.issuerSecurityKey, info.authority)
  }

  /** The constructor: every option is copied into TokenInfo unchanged, so reading them back gives the options. */
  function NewTokenProvider(options: JwtTokenOptions): (p: TokenProvider)
    ensures OptionsOf(p.tokenInfo) == options
  {
    TokenProvider(TokenInfo(
      audience := options.audience,
      issuer := options.issuer,
      issuerSecurityKey := options.issuerSecurityKey,
      lifetime := options.lifetime,
      lifetimeExternal := options.lifetimeExternal,
      validateAudience := options.validateAudience,
      validateIssuer := options.validateIssuer,
      validateLifetime := options.validateLifetime,
      validateIssuerSigningKey := options.validateIssuerSigningKey,
      authority := options.authority))
  }

  /** The key bytes of the policy's secret: Encoding.ASCII.GetBytes(IssuerSecurityKey). */
  function SigningKeyBytes(info: TokenInfo): Key
  {
    AsciiBytes(info.issuerSecurityKey)
  }

  // ---------------------------------------------------------------------
  // CreateAccessToken

  /**
   * The claims argument of the JwtSecurityToken: null for an empty lookup,
   * otherwise one claim per group with the group's first value. Either way
   * the token carries exactly the lookup's first values.
   */
  function ClaimsArgument(lookup: Lookup): (r: Option<seq<Claim>>)
    ensures r.None? <==> |lookup| == 0
    ensures r.GetOr([]) == FirstValues(lookup)
  {
    if |lookup| > 0 then Some(FirstValues(lookup)) else None
  }

  /** The token CreateAccessToken signs. */
  function IssuedToken(info: TokenInfo, now: Instant, expires: Instant, claims: seq<Claim>): JwtSecurityToken
  {
    JwtSecurityToken(info.issuer, info.audience, now, expires, claims)
  }

  /**
   * CreateAccessToken(ILookup, int): expires = now + expiresInMinutes; the
   * token carries the policy's issuer and audience, not-before = now, that
   * expiry and the lookup's first values, signed with the policy's secret.
   * It throws when the expiry leaves DateTime's range, when the secret is
   * empty, or when the expiry is not after now.
   */
  function CreateAccessToken(p: TokenProvider, lib: JwtLibrary, now: Instant, lookup: Lookup, expiresInMinutes: Int32)
    : (r: Result<AccessTokenModel, Fault>)
    ensures r.Success? <==>
      0 < expiresInMinutes && now + expiresInMinutes * SecondsPerMinute <= MaxInstant && |p.tokenInfo.issuerSecurityKey| > 0
    ensures r.Failure? ==>
      (r.error == ArgumentOutOfRange <==> !(0 <= now + expiresInMinutes * SecondsPerMinute <= MaxInstant))
    ensures r.Failure? && 0 <= now + expiresInMinutes * SecondsPerMinute <= MaxInstant ==>
      (r.error == EmptyKey <==> |p.tokenInfo.issuerSecurityKey| == 0)
    ensures r.Failure? ==> r.error in {ArgumentOutOfRange, EmptyKey, ExpiresNotAfterNotBefore}
    ensures r.Success? ==> r.value.expireAt == now + expiresInMinutes * SecondsPerMinute
    ensures r.Success? ==>
      r.value.accessToken == lib.writeToken(IssuedToken(p.tokenInfo, now, r.value.expireAt, FirstValues(lookup)), SigningKeyBytes(p.tokenInfo))
  {
    var expires :- AddMinutes(now, expiresInMinutes);
    var key :- SymmetricSecurityKey(AsciiBytes(p.tokenInfo.issuerSecurityKey));
    var jwt :- NewJwtSecurityToken(p.tokenInfo.issuer, p.tokenInfo.audience, now, ClaimsArgument(lookup), expires);
    Success(AccessTokenModel(lib.writeToken(jwt, key), expires))
  }

  /**
   * CreateAccessToken(int, params (object Key, object Value)[]): the pairs
   * go through ToLookup; the token carries their collapse.
   */
  function CreateAccessTokenFromTuples(p: TokenProvider, lib: JwtLibrary, now: Instant, expiresInMinutes: Int32, claims: seq<Pair>)
    : (r: Result<AccessTokenModel, Fault>)
    ensures r.Success? <==>
      0 < expiresInMinutes && now + expiresInMinutes * SecondsPerMinute <= MaxInstant && |p.tokenInfo.issuerSecurityKey| > 0
    ensures r.Success? ==> r.value.expireAt == now + expiresInMinutes * SecondsPerMinute
    ensures r.Success? ==>
      r.value.accessToken == lib.writeToken(IssuedToken(p.tokenInfo, now, r.value.expireAt, Collapse(claims)), SigningKeyBytes(p.tokenInfo))
  {
    CreateAccessToken(p, lib, now, ToLookup(claims), expiresInMinutes)
  }

  /** The pairs of a KeyValuePair list, in order. */
  function PairsOf(keyValues: seq<KeyValuePair>): (r: seq<Pair>)
    ensures |r| == |keyValues|
    ensures forall i :: 0 <= i < |keyValues| ==> r[i] == (keyValues[i].key, keyValues[i].value)
  {
    seq(|keyValues|, i requires 0 <= i < |keyValues| => (keyValues[i].key, keyValues[i].value))
  }

  /**
   * CreateAccessToken(IEnumerable<KeyValuePair<object, object>>, int): the
   * pairs go through ToLookup; the token carries their collapse.
   */
  function CreateAccessTokenFromKeyValues(p: TokenProvider, lib: JwtLibrary, now: Instant, keyValues: seq<KeyValuePair>, expiresInMinutes: Int32)
    : (r: Result<AccessTokenModel, Fault>)
    ensures r.Success? <==>
      0 < expiresInMinutes && now + expiresInMinutes * SecondsPerMinute <= MaxInstant && |p.tokenInfo.issuerSecurityKey| > 0
    ensures r.Success? ==> r.value.expireAt == now + expiresInMinutes * SecondsPerMinute
    ensures r.Success? ==>
      r.value.accessToken == lib.writeToken(IssuedToken(p.tokenInfo, now, r.value.expireAt, Collapse(PairsOf(keyValues))), SigningKeyBytes(p.tokenInfo))
  {
    CreateAccessToken(p, lib, now, ToLookup(PairsOf(keyValues)), expiresInMinutes)
  }

  /** The tuple and key-value overloads give the same result for the same pairs. */
  lemma TupleAndKeyValueOverloadsAgree(p: TokenProvider, lib: JwtLibrary, now: Instant, keyValues: seq<KeyValuePair>, expiresInMinutes: Int32)
    ensures CreateAccessTokenFromKeyValues(p, lib, now, keyValues, expiresInMinutes)
         == CreateAccessTokenFromTuples(p, lib, now, expiresInMinutes, PairsOf(keyValues))
  {
  }

  // ---------------------------------------------------------------------
  // IsTokenValid

  /** The TokenValidationParameters IsTokenValid builds; the key constructor throws on an empty secret. */
  function ValidationParametersFor(info: TokenInfo): (r: Result<TokenValidationParameters, Fault>)
    ensures r.Success? <==> |info.issuerSecurityKey| > 0
  {
    var key :- SymmetricSecurityKey(SigningKeyBytes(info));
    Success(TokenValidationParameters(
      validateIssuer := info.validateIssuer,
      validateLifetime := info.validateLifetime,
      validateIssuerSigningKey := info.validateIssuerSigningKey,
      validateAudience := info.validateAudience,
      validIssuer := info.issuer,
      validAudience := info.audience,
      issuerSigningKey := key))
  }

  /**
   * The `out SecurityToken` of the ValidateToken call in IsTokenValid: the
   * validated token, or null when anything inside the try block throws.
   */
  function ValidatedToken(p: TokenProvider, lib: JwtLibrary, now: Instant, token: string): (r: Option<JwtSecurityToken>)
    ensures r.Some? ==> lib.readToken(token) == JwtToken(r.value)
  {
    match ValidationParametersFor(p.tokenInfo)
    case Failure(_) => None
    case Success(parameters) =>
      match ValidateToken(lib, token, parameters, now)
      case Validated(t) => Some(t)
      case Rejected(_) => None
  }

  /** IsTokenValid: whether validation completes with a token; every fault becomes `false`. */
  function IsTokenValid(p: TokenProvider, lib: JwtLibrary, now: Instant, token: string): (r: bool)
    ensures r ==> |p.tokenInfo.issuerSecurityKey| > 0 && lib.readToken(token).JwtToken?
  {
    ValidatedToken(p, lib, now, token).Some?
  }

  /**
   * A token is valid exactly when the secret is not empty, the token reads
   * as a JWT, its signature verifies under the secret's ASCII bytes, and
   * each of the four checks whose switch is on passes against the policy's
   * issuer, audience and key.
   */
  lemma IsTokenValidExactly(p: TokenProvider, lib: JwtLibrary, now: Instant, token: string)
    ensures IsTokenValid(p, lib, now, token) <==>
      var info := p.tokenInfo;
      var key := SigningKeyBytes(info);
      && |info.issuerSecurityKey| > 0
      && lib.readToken(token).JwtToken?
      && lib.signatureVerifies(token, key)
      && (info.validateIssuer ==> lib.readToken(token).token.issuer == info.issuer)
      && (info.validateAudience ==> lib.readToken(token).token.audience == info.audience)
      && (info.validateLifetime ==>
            lib.lifetimeAccepted(lib.readToken(token).token.notBefore, lib.readToken(token).token.expires, now))
      && (info.validateIssuerSigningKey ==> lib.signingKeyAccepted(key))
  {
  }

  /** Validation reads only the four switches, the issuer, the audience and the secret of the policy. */
  lemma ValidationReadsOnlyItsPolicyFields(p1: TokenProvider, p2: TokenProvider, lib: JwtLibrary, now: Instant, token: string)
    requires p1.tokenInfo.validateIssuer == p2.tokenInfo.validateIssuer
    requires p1.tokenInfo.validateAudience == p2.tokenInfo.validateAudience
    requires p1.tokenInfo.validateLifetime == p2.tokenInfo.validateLifetime
    requires p1.tokenInfo.validateIssuerSigningKey == p2.tokenInfo.validateIssuerSigningKey
    requires p1.tokenInfo.issuer == p2.tokenInfo.issuer
    requires p1.tokenInfo.audience == p2.tokenInfo.audience
    requires p1.tokenInfo.issuerSecurityKey == p2.tokenInfo.issuerSecurityKey
    ensures IsTokenValid(p1, lib, now, token) == IsTokenValid(p2, lib, now, token)
    ensures ValidatedToken(p1, lib, now, token) == ValidatedToken(p2, lib, now, token)
  {
  }

  /** A token whose signature does not verify under the policy's secret is invalid, and GetClaims says so. */
  lemma TamperedTokenIsRejected(p: TokenProvider, lib: JwtLibrary, now: Instant, token: string)
    requires !lib.signatureVerifies(token, SigningKeyBytes(p.tokenInfo))
    ensures !IsTokenValid(p, lib, now, token)
    ensures GetClaims(p, lib, now, token) == Failure(TokenIsInvalid)
  {
    IsTokenValidExactly(p, lib, now, token);
  }

  /**
   * The audience switch decides a token that passes every other check but
   * names another audience: valid with the switch off, invalid with it on.
   */
  lemma AudienceSwitchDecides(p: TokenProvider, lib: JwtLibrary, now: Instant, token: string)
    requires |p.tokenInfo.issuerSecurityKey| > 0
    requires lib.readToken(token).JwtToken? && lib.signatureVerifies(token, SigningKeyBytes(p.tokenInfo))
    requires lib.readToken(token).token.issuer == p.tokenInfo.issuer
    requires lib.readToken(token).token.audience != p.tokenInfo.audience
    requires p.tokenInfo.validateLifetime ==> lib.lifetimeAccepted(lib.readToken(token).token.notBefore, lib.readToken(token).token.expires, now)
    requires p.tokenInfo.validateIssuerSigningKey ==> lib.signingKeyAccepted(SigningKeyBytes(p.tokenInfo))
    ensures IsTokenValid(p, lib, now, token) <==> !p.tokenInfo.validateAudience
  {
    IsTokenValidExactly(p, lib, now, token);
  }

  /** The same for the issuer switch. */
  lemma IssuerSwitchDecides(p: TokenProvider, lib: JwtLibrary, now: Instant, token: string)
    requires |p.tokenInfo.issuerSecurityKey| > 0
    requires lib.readToken(token).JwtToken? && lib.signatureVerifies(token, SigningKeyBytes(p.tokenInfo))
    requires lib.readToken(token).token.audience == p.tokenInfo.audience
    requires lib.readToken(token).token.issuer != p.tokenInfo.issuer
    requires p.tokenInfo.validateLifetime ==> lib.lifetimeAccepted(lib.readToken(token).token.notBefore, lib.readToken(token).token.expires, now)
    requires p.tokenInfo.validateIssuerSigningKey ==> lib.signingKeyAccepted(SigningKeyBytes(p.tokenInfo))
    ensures IsTokenValid(p, lib, now, token) <==> !p.tokenInfo.validateIssuer
  {
    IsTokenValidExactly(p, lib, now, token);
  }

  // ---------------------------------------------------------------------
  // GetClaims

  /**
   * GetClaims: "Token is invalid" when IsTokenValid fails; otherwise reads
   * the token with every "Bearer " removed: its claims when it reads as a
   * JwtSecurityToken, no claims when it reads as another kind of token, and
   * ReadToken's exception when it does not read at all.
   */
  function GetClaims(p: TokenProvider, lib: JwtLibrary, now: Instant, token: string): (r: Result<seq<Claim>, Fault>)
    ensures r == Failure(TokenIsInvalid) <==> !IsTokenValid(p, lib, now, token)
    ensures r.Success? && lib.readToken(RemoveAll(token, BearerPrefix)).JwtToken? ==>
      r.value == lib.readToken(RemoveAll(token, BearerPrefix)).token.claims
    ensures r.Success? && !lib.readToken(RemoveAll(token, BearerPrefix)).JwtToken? ==> r.value == []
  {
    if !IsTokenValid(p, lib, now, token) then Failure(TokenIsInvalid)
    else match lib.readToken(RemoveAll(token, BearerPrefix))
      case JwtToken(t) => Success(t.claims)
      case OtherToken => Success([])
      case NotReadable => Failure(NotAJwt)
  }

  /**
   * On a valid token GetClaims returns the claims of the token that was
   * validated: a readable token holds no space, so removing "Bearer "
   * changes nothing, and neither the empty result nor ReadToken's
   * exception can occur.
   */
  lemma GetClaimsOfValidToken(p: TokenProvider, lib: JwtLibrary, now: Instant, token: string)
    requires Laws(lib)
    requires IsTokenValid(p, lib, now, token)
    ensures GetClaims(p, lib, now, token) == Success(lib.readToken(token).token.claims)
  {
    RemoveAllWithoutOccurrence(token, BearerPrefix, ' ');
  }

  /** What GetClaims does with every token: the invalid ones fail, the valid ones give their own claims. */
  lemma GetClaimsExactly(p: TokenProvider, lib: JwtLibrary, now: Instant, token: string)
    requires Laws(lib)
    ensures GetClaims(p, lib, now, token) ==
      if IsTokenValid(p, lib, now, token) then Success(lib.readToken(token).token.claims) else Failure(TokenIsInvalid)
  {
    if IsTokenValid(p, lib, now, token) {
      GetClaimsOfValidToken(p, lib, now, token);
    }
  }

  /**
   * A string that does not read as a JWT is turned down everywhere without
   * an uncaught fault: IsTokenValid is false, GetClaims fails with "Token
   * is invalid" (its validity check comes before its own read), and
   * GetTokenExternalLoginInfo gives null.
   */
  lemma MalformedTokenIsTurnedDown(p: TokenProvider, lib: JwtLibrary, checkedAt: Instant, readAt: Instant, token: string)
    requires !lib.readToken(token).JwtToken?
    ensures !IsTokenValid(p, lib, checkedAt, token)
    ensures GetClaims(p, lib, checkedAt, token) == Failure(TokenIsInvalid)
    ensures GetTokenExternalLoginInfo(p, lib, checkedAt, readAt, token) == Success(None)
  {
  }

  /**
   * As written, GetClaims validates the token before removing "Bearer ",
   * so a token presented with its scheme prefix is always refused.
   */
  lemma BearerPrefixedTokenIsRejected(p: TokenProvider, lib: JwtLibrary, now: Instant, token: string)
    requires Laws(lib)
    ensures !IsTokenValid(p, lib, now, BearerPrefix + token)
    ensures GetClaims(p, lib, now, BearerPrefix + token) == Failure(TokenIsInvalid)
  {
    assert (BearerPrefix + token)[6] == ' ';
  }

  /** GetClaims with the prefix removed before validation, as the stripping evidently intends. */
  function GetClaimsAcceptingBearer(p: TokenProvider, lib: JwtLibrary, now: Instant, token: string): (r: Result<seq<Claim>, Fault>)
    ensures r == Failure(TokenIsInvalid) <==> !IsTokenValid(p, lib, now, RemoveAll(token, BearerPrefix))
  {
    var bare := RemoveAll(token, BearerPrefix);
    if !IsTokenValid(p, lib, now, bare) then Failure(TokenIsInvalid)
    else match lib.readToken(bare)
      case JwtToken(t) => Success(t.claims)
      case OtherToken => Success([])
      case NotReadable => Failure(NotAJwt)
  }

  /** The corrected GetClaims treats "Bearer " + token as the token itself and agrees with GetClaims on bare tokens. */
  lemma BearerPrefixIsAccepted(p: TokenProvider, lib: JwtLibrary, now: Instant, token: string)
    requires ' ' !in token
    ensures GetClaimsAcceptingBearer(p, lib, now, BearerPrefix + token) == GetClaims(p, lib, now, token)
    ensures GetClaimsAcceptingBearer(p, lib, now, token) == GetClaims(p, lib, now, token)
  {
    RemoveAllLeading(BearerPrefix, token);
    RemoveAllWithoutOccurrence(token, BearerPrefix, ' ');
  }

  // ---------------------------------------------------------------------
  // Round trips through CreateAccessToken

  /**
   * A created token reads back as the policy's issuer and audience,
   * not-before = now, expiry = now + minutes = ExpireAt, and the lookup's
   * first values; an empty lookup gives a null claim list and a token with
   * no custom claims.
   */
  lemma CreatedTokenFields(p: TokenProvider, lib: JwtLibrary, now: Instant, lookup: Lookup, expiresInMinutes: Int32)
    requires Laws(lib)
    requires CreateAccessToken(p, lib, now, lookup, expiresInMinutes).Success?
    ensures var m := CreateAccessToken(p, lib, now, lookup, expiresInMinutes).value;
      && lib.readToken(m.accessToken).JwtToken?
      && lib.readToken(m.accessToken).token.issuer == p.tokenInfo.issuer
      && lib.readToken(m.accessToken).token.audience == p.tokenInfo.audience
      && lib.readToken(m.accessToken).token.notBefore == now
      && lib.readToken(m.accessToken).token.expires == m.expireAt == now + expiresInMinutes * SecondsPerMinute
      && lib.readToken(m.accessToken).token.claims == FirstValues(lookup)
      && (|lookup| == 0 ==> ClaimsArgument(lookup) == None && lib.readToken(m.accessToken).token.claims == [])
  {
  }

  /**
   * The central round trip: a created token validates at any later instant
   * the lifetime and signing-key checks accept, and GetClaims gives back
   * exactly the claims it was built from.
   */
  lemma CreatedTokenValidates(p: TokenProvider, lib: JwtLibrary, now: Instant, later: Instant, lookup: Lookup, expiresInMinutes: Int32)
    requires Laws(lib)
    requires CreateAccessToken(p, lib, now, lookup, expiresInMinutes).Success?
    requires p.tokenInfo.validateLifetime ==> lib.lifetimeAccepted(now, now + expiresInMinutes * SecondsPerMinute, later)
    requires p.tokenInfo.validateIssuerSigningKey ==> lib.signingKeyAccepted(SigningKeyBytes(p.tokenInfo))
    ensures IsTokenValid(p, lib, later, CreateAccessToken(p, lib, now, lookup, expiresInMinutes).value.accessToken)
    ensures GetClaims(p, lib, later, CreateAccessToken(p, lib, now, lookup, expiresInMinutes).value.accessToken)
         == Success(FirstValues(lookup))
  {
    var token := CreateAccessToken(p, lib, now, lookup, expiresInMinutes).value.accessToken;
    IsTokenValidExactly(p, lib, later, token);
    GetClaimsOfValidToken(p, lib, later, token);
  }

  /**
   * Claims given as pairs come back collapsed: one claim per distinct key,
   * the first value of each key, keys in the order of their first
   * occurrence; with no key repeated, exactly the pairs given.
   */
  lemma CreatedTokenReturnsCollapsedClaims(p: TokenProvider, lib: JwtLibrary, now: Instant, later: Instant,
                                           pairs: seq<Pair>, expiresInMinutes: Int32)
    requires Laws(lib)
    requires CreateAccessTokenFromTuples(p, lib, now, expiresInMinutes, pairs).Success?
    requires p.tokenInfo.validateLifetime ==> lib.lifetimeAccepted(now, now + expiresInMinutes * SecondsPerMinute, later)
    requires p.tokenInfo.validateIssuerSigningKey ==> lib.signingKeyAccepted(SigningKeyBytes(p.tokenInfo))
    ensures var r := GetClaims(p, lib, later, CreateAccessTokenFromTuples(p, lib, now, expiresInMinutes, pairs).value.accessToken);
      && r.Success?
      && (forall i, j :: 0 <= i < j < |r.value| ==> r.value[i].claimType != r.value[j].claimType)
      && (set i | 0 <= i < |r.value| :: r.value[i].claimType) == Keys(pairs)
      && (forall i :: 0 <= i < |r.value| ==>
            r.value[i].claimType in Keys(pairs) && r.value[i].value == pairs[FirstIndex(pairs, r.value[i].claimType)].1)
      && (forall i, j :: 0 <= i < j < |r.value| ==>
            r.value[i].claimType in Keys(pairs) && r.value[j].claimType in Keys(pairs) &&
            FirstIndex(pairs, r.value[i].claimType) < FirstIndex(pairs, r.value[j].claimType))
      && (DistinctKeys(pairs) ==> r.value == AsClaims(pairs))
  {
    CreatedTokenValidates(p, lib, now, later, ToLookup(pairs), expiresInMinutes);
    CollapseKeepsFirstValues(pairs);
    if DistinctKeys(pairs) {
      CollapseOfDistinctKeys(pairs);
    }
  }

  // ---------------------------------------------------------------------
  // GetTokenExternalLoginInfo

  /** The identity in a claim list: the first email claim and the first name-identifier claim, or null if either is missing. */
  function LoginInfoFromClaims(claims: seq<Claim>): (r: Option<TokenExternalLoginInfo>)
    ensures r.Some? <==>
      IndexOfType(claims, EmailClaimType).Some? && IndexOfType(claims, NameIdentifierClaimType).Some?
    ensures r.Some? ==>
      r.value.email == claims[IndexOfType(claims, EmailClaimType).value].value &&
      r.value.userId == claims[IndexOfType(claims, NameIdentifierClaimType).value].value
  {
    var emailClaim := FirstOfType(claims, EmailClaimType);
    var nameIdentifier := FirstOfType(claims, NameIdentifierClaimType);
    if emailClaim.None? then None
    else if nameIdentifier.None? then None
    else Some(TokenExternalLoginInfo(emailClaim.value.value, nameIdentifier.value.value))
  }

  /** Claims of any other type do not affect the identity. */
  lemma LoginInfoIgnoresOtherClaims(c1: seq<Claim>, c2: seq<Claim>)
    requires OfTypes(c1, {EmailClaimType, NameIdentifierClaimType}) == OfTypes(c2, {EmailClaimType, NameIdentifierClaimType})
    ensures LoginInfoFromClaims(c1) == LoginInfoFromClaims(c2)
  {
    var types := {EmailClaimType, NameIdentifierClaimType};
    FirstOfTypeIgnoresOtherTypes(c1, types, EmailClaimType);
    FirstOfTypeIgnoresOtherTypes(c2, types, EmailClaimType);
    FirstOfTypeIgnoresOtherTypes(c1, types, NameIdentifierClaimType);
    FirstOfTypeIgnoresOtherTypes(c2, types, NameIdentifierClaimType);
  }

  /**
   * GetTokenExternalLoginInfo: null for an invalid token; otherwise the
   * identity in GetClaims's result. IsTokenValid runs twice, once here at
   * `checkedAt` and once inside GetClaims at `readAt`, each reading the
   * clock; an exception of GetClaims propagates. A token valid at both
   * readings yields the identity in its own claims.
   */
  function GetTokenExternalLoginInfo(p: TokenProvider, lib: JwtLibrary, checkedAt: Instant, readAt: Instant, token: string)
    : (r: Result<Option<TokenExternalLoginInfo>, Fault>)
    ensures !IsTokenValid(p, lib, checkedAt, token) ==> r == Success(None)
    ensures r.Success? && r.value.Some? ==> IsTokenValid(p, lib, checkedAt, token) && IsTokenValid(p, lib, readAt, token)
    ensures Laws(lib) && IsTokenValid(p, lib, checkedAt, token) && IsTokenValid(p, lib, readAt, token) ==>
      r == Success(LoginInfoFromClaims(lib.readToken(token).token.claims))
  {
    if !IsTokenValid(p, lib, checkedAt, token) then Success(None)
    else
      assert Laws(lib) && IsTokenValid(p, lib, readAt, token) ==>
        GetClaims(p, lib, readAt, token) == Success(lib.readToken(token).token.claims) by {
        if Laws(lib) && IsTokenValid(p, lib, readAt, token) {
          GetClaimsOfValidToken(p, lib, readAt, token);
        }
      }
      var claims :- GetClaims(p, lib, readAt, token);
      Success(LoginInfoFromClaims(claims))
  }

  /**
   * With one clock reading, GetTokenExternalLoginInfo never throws: it gives
   * the first email and first name-identifier values of a valid token that
   * has both, and null otherwise.
   */
  lemma ExternalLoginExactly(p: TokenProvider, lib: JwtLibrary, now: Instant, token: string)
    requires Laws(lib)
    ensures var r := GetTokenExternalLoginInfo(p, lib, now, now, token);
      && r.Success?
      && (r.value.Some? <==>
            && IsTokenValid(p, lib, now, token)
            && IndexOfType(lib.readToken(token).token.claims, EmailClaimType).Some?
            && IndexOfType(lib.readToken(token).token.claims, NameIdentifierClaimType).Some?)
      && (r.value.Some? ==>
            var claims := lib.readToken(token).token.claims;
            r.value.value.email == claims[IndexOfType(claims, EmailClaimType).value].value &&
            r.value.value.userId == claims[IndexOfType(claims, NameIdentifierClaimType).value].value)
  {
    if IsTokenValid(p, lib, now, token) {
      GetClaimsOfValidToken(p, lib, now, token);
    }
  }

  /** Two valid tokens whose email and name-identifier claims agree give the same identity. */
  lemma ExternalLoginIgnoresOtherClaims(p: TokenProvider, lib: JwtLibrary, now: Instant, token1: string, token2: string)
    requires Laws(lib)
    requires IsTokenValid(p, lib, now, token1) && IsTokenValid(p, lib, now, token2)
    requires OfTypes(lib.readToken(token1).token.claims, {EmailClaimType, NameIdentifierClaimType})
          == OfTypes(lib.readToken(token2).token.claims, {EmailClaimType, NameIdentifierClaimType})
    ensures GetTokenExternalLoginInfo(p, lib, now, now, token1) == GetTokenExternalLoginInfo(p, lib, now, now, token2)
  {
    GetClaimsOfValidToken(p, lib, now, token1);
    GetClaimsOfValidToken(p, lib, now, token2);
    LoginInfoIgnoresOtherClaims(lib.readToken(token1).token.claims, lib.readToken(token2).token.claims);
  }

  /** A valid token with an email and a name identifier yields them; without either it yields null. */
  lemma ExternalLoginExample(p: TokenProvider, lib: JwtLibrary, now: Instant, full: string, noEmail: string, noId: string)
    requires Laws(lib)
    requires IsTokenValid(p, lib, now, full) && IsTokenValid(p, lib, now, noEmail) && IsTokenValid(p, lib, now, noId)
    requires lib.readToken(full).token.claims == [Claim(EmailClaimType, "a@b.com"), Claim(NameIdentifierClaimType, "42")]
    requires lib.readToken(noEmail).token.claims == [Claim(NameIdentifierClaimType, "42")]
    requires lib.readToken(noId).token.claims == [Claim(EmailClaimType, "a@b.com")]
    ensures GetTokenExternalLoginInfo(p, lib, now, now, full) == Success(Some(TokenExternalLoginInfo("a@b.com", "42")))
    ensures GetTokenExternalLoginInfo(p, lib, now, now, noEmail) == Success(None)
    ensures GetTokenExternalLoginInfo(p, lib, now, now, noId) == Success(None)
  {
    GetClaimsOfValidToken(p, lib, now, full);
    GetClaimsOfValidToken(p, lib, now, noEmail);
    GetClaimsOfValidToken(p, lib, now, noId);
    assert EmailClaimType != NameIdentifierClaimType by {
      assert EmailClaimType[|EmailClaimType| - 1] != NameIdentifierClaimType[|NameIdentifierClaimType| - 1];
    }
    var claims := [Claim(EmailClaimType, "a@b.com"), Claim(NameIdentifierClaimType, "42")];
    assert IndexOfType(claims, NameIdentifierClaimType) == Some(1);
  }

  /**
   * As written: a token that is valid at the first clock reading and no
   * longer valid at the second (its lifetime ends in between) makes
   * GetTokenExternalLoginInfo throw "Token is invalid" instead of giving
   * null.
   */
  lemma ExternalLoginThrowsWhenTokenLapses(p: TokenProvider, lib: JwtLibrary, checkedAt: Instant, readAt: Instant, token: string)
    requires IsTokenValid(p, lib, checkedAt, token)
    requires !IsTokenValid(p, lib, readAt, token)
    ensures GetTokenExternalLoginInfo(p, lib, checkedAt, readAt, token) == Failure(TokenIsInvalid)
  {
  }

  /** GetTokenExternalLoginInfo with one validation: the identity in the validated token itself; it cannot throw. */
  function GetTokenExternalLoginInfoOnce(p: TokenProvider, lib: JwtLibrary, now: Instant, token: string)
    : (r: Option<TokenExternalLoginInfo>)
    ensures r.Some? ==> IsTokenValid(p, lib, now, token)
    ensures IsTokenValid(p, lib, now, token) ==> r == LoginInfoFromClaims(lib.readToken(token).token.claims)
  {
    match ValidatedToken(p, lib, now, token)
    case None => None
    case Some(t) => LoginInfoFromClaims(t.claims)
  }

  /** With one clock reading the source's operation and the single-validation one agree. */
  lemma ExternalLoginOnceAgrees(p: TokenProvider, lib: JwtLibrary, now: Instant, token: string)
    requires Laws(lib)
    ensures GetTokenExternalLoginInfo(p, lib, now, now, token) == Success(GetTokenExternalLoginInfoOnce(p, lib, now, token))
  {
    if IsTokenValid(p, lib, now, token) {
      GetClaimsOfValidToken(p, lib, now, token);
    }
  }
}
