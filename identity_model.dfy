/**
 * The JWT library the token provider calls (System.IdentityModel.Tokens.Jwt
 * and Microsoft.IdentityModel.Tokens), seen only at its boundary.
 *
 * A token is a record: issuer, audience, not-before, expiry and its ordered
 * claims. Serializing and signing, reading, signature checking, the
 * lifetime check (clock skew included) and the signing-key check are left
 * abstract: they are the fields of a `JwtLibrary` value, and `Laws` states
 * the little the model assumes about them.
 */
module IdentityModel {
  import opened Wrappers
  import opened Platform
  import opened Claims

  /** The key bytes of a SymmetricSecurityKey. */
  type Key = seq<Byte>

  /** new SymmetricSecurityKey(bytes): rejects an empty key. */
  function SymmetricSecurityKey(bytes: seq<Byte>): (r: Result<Key, Fault>)
    ensures r.Success? <==> |bytes| > 0
    ensures r.Success? ==> r.value == bytes
    ensures r.Failure? ==> r.error == EmptyKey
  {
    if |bytes| == 0 then Failure(EmptyKey) else Success(bytes)
  }

  /** The content of a JwtSecurityToken: the registered fields and the custom claims. */
  datatype JwtSecurityToken = JwtSecurityToken(
    issuer: string,
    audience: string,
    notBefore: Instant,
    expires: Instant,
    claims: seq<Claim>)

  /**
   * new JwtSecurityToken(issuer, audience, claims, notBefore, expires):
   * a null claim list gives a token without custom claims; an expiry that
   * is not after not-before is rejected.
   */
  function NewJwtSecurityToken(issuer: string, audience: string, notBefore: Instant,
                               claims: Option<seq<Claim>>, expires: Instant): (r: Result<JwtSecurityToken, Fault>)
    ensures r.Success? <==> notBefore < expires
    ensures r.Failure? ==> r.error == ExpiresNotAfterNotBefore
    ensures r.Success? ==> r.value.claims == claims.GetOr([])
    ensures r.Success? ==> r.value.issuer == issuer && r.value.audience == audience
    ensures r.Success? ==> r.value.notBefore == notBefore && r.value.expires == expires
  {
    if notBefore >= expires then Failure(ExpiresNotAfterNotBefore)
    else Success(JwtSecurityToken(issuer, audience, notBefore, expires, claims.GetOr([])))
  }

  /** What JwtSecurityTokenHandler.ReadToken makes of a string. */
  datatype ReadResult =
    | JwtToken(token: JwtSecurityToken)   // a JwtSecurityToken
    | OtherToken                          // a security token that is not a JwtSecurityToken
    | NotReadable                         // ReadToken throws

  /**
   * The library's behaviour, left abstract:
   *  - writeToken: WriteToken of a token signed with HMAC-SHA256 under the key;
   *  - readToken: ReadToken;
   *  - signatureVerifies: the token's signature checks out under the key;
   *  - lifetimeAccepted: the lifetime check for (notBefore, expires, now);
   *  - signingKeyAccepted: the issuer-signing-key check.
   */
  datatype JwtLibrary = JwtLibrary(
    writeToken: (JwtSecurityToken, Key) -> string,
    readToken: string -> ReadResult,
    signatureVerifies: (string, Key) -> bool,
    lifetimeAccepted: (Instant, Instant, Instant) -> bool,
    signingKeyAccepted: Key -> bool)

  /**
   * What the model assumes of the library: reading a written token gives the
   * token back; a written token verifies under the key it was signed with;
   * a readable token is in compact serialization and holds no space.
   */
  ghost predicate Laws(lib: JwtLibrary) {
    && (forall t, k :: lib.readToken(lib.writeToken(t, k)) == JwtToken(t))
    && (forall t, k :: lib.signatureVerifies(lib.writeToken(t, k), k))
    && (forall s :: lib.readToken(s).JwtToken? ==> ' ' !in s)
  }

  /** TokenValidationParameters: the four switches and the expected values. */
  datatype TokenValidationParameters = TokenValidationParameters(
    validateIssuer: bool,
    validateLifetime: bool,
    validateIssuerSigningKey: bool,
    validateAudience: bool,
    validIssuer: string,
    validAudience: string,
    issuerSigningKey: Key)

  /** Why ValidateToken throws. */
  datatype Rejection =
    | Unreadable
    | InvalidSignature
    | InvalidLifetime
    | InvalidAudience
    | InvalidIssuer
    | InvalidSigningKey

  /** ValidateToken either hands out the validated token or throws. */
  datatype Validation = Validated(token: JwtSecurityToken) | Rejected(reason: Rejection)

  /**
   * JwtSecurityTokenHandler.ValidateToken: read the token, verify its
   * signature, then run each check whose switch is on, in the library's
   * order (lifetime, audience, issuer, signing key).
   */
  function ValidateToken(lib: JwtLibrary, token: string, parameters: TokenValidationParameters, now: Instant): (r: Validation)
    ensures r.Validated? ==> lib.readToken(token) == JwtToken(r.token)
    ensures r.Validated? ==> lib.signatureVerifies(token, parameters.issuerSigningKey)
    ensures r.Validated? && parameters.validateIssuer ==> r.token.issuer == parameters.validIssuer
    ensures r.Validated? && parameters.validateAudience ==> r.token.audience == parameters.validAudience
    ensures r.Validated? && parameters.validateLifetime ==> lib.lifetimeAccepted(r.token.notBefore, r.token.expires, now)
    ensures r.Validated? && parameters.validateIssuerSigningKey ==> lib.signingKeyAccepted(parameters.issuerSigningKey)
  {
    match lib.readToken(token)
    case JwtToken(t) =>
      if !lib.signatureVerifies(token, parameters.issuerSigningKey) then Rejected(InvalidSignature)
      else if parameters.validateLifetime && !lib.lifetimeAccepted(t.notBefore, t.expires, now) then Rejected(InvalidLifetime)
      else if parameters.validateAudience && t.audience != parameters.validAudience then Rejected(InvalidAudience)
      else if parameters.validateIssuer && t.issuer != parameters.validIssuer then Rejected(InvalidIssuer)
      else if parameters.validateIssuerSigningKey && !lib.signingKeyAccepted(parameters.issuerSigningKey) then Rejected(InvalidSigningKey)
      else Validated(t)
    case _ => Rejected(Unreadable)
  }
}
