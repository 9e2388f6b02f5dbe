# Token engine of the voice-assistant authorization service, in Dafny

This project models `TokenProvider`, the token engine of the VoiceAssistants authorization service. The engine:

- issues signed JWT access tokens from claim sets;
- validates bearer tokens against a configured policy (four switches plus the expected issuer, audience and secret);
- reads the claims of a valid token;
- derives the external-login identity (an email and a user id) from those claims.

It also proves properties of that model.

The provider is modelled as it is written: pure functions of the policy and their arguments. The policy is a `TokenInfo` that the constructor copies once from `JwtTokenOptions`. Everything these functions use from outside is a parameter:

- **The clock.** `DateTime.UtcNow` becomes an explicit `Instant`, counted in whole seconds since 0001-01-01, bounded by `DateTime.MaxValue`.
- **The JWT library.** It is a `JwtLibrary` value whose fields are abstract:
  - `writeToken`: serialize and sign with HMAC-SHA256;
  - `readToken`: read a string back;
  - `signatureVerifies`: check a signature;
  - `lifetimeAccepted`: the lifetime check, clock skew included;
  - `signingKeyAccepted`: the issuer-signing-key check.

The lemmas that need the library to behave assume `IdentityModel.Laws` and nothing more:

- reading a written token gives that token back;
- a written token verifies under the key it was signed with;
- a string that reads as a JWT (compact serialization) contains no space.

`IdentityModel.ValidateToken` is the model of `JwtSecurityTokenHandler.ValidateToken`. It reads the token and verifies the signature. Then it runs each check whose switch is on, against the expected values.

Modules:

- `Wrappers`: `Option` for C# nulls and `Result` for exceptions.
- `Platform`: the .NET pieces the provider relies on:
  - the exception kinds (`Fault`);
  - `DateTime.AddMinutes`, with its range check;
  - `Encoding.ASCII.GetBytes`, which turns every non-ASCII character into `?`;
  - `String.Replace(x, "")`, which is a single left-to-right pass.
- `Claims`: `Claim`, the lookup that LINQ `ToLookup` builds, the "first value of each group" selection, and `FirstOrDefault` by claim type.
- `IdentityModel`: the token record, the key and token constructors with their own exceptions, the abstract library, and `ValidateToken`.
- `Providers`: the `TokenProvider` itself.

What the proofs establish:

- **Claim collapsing.** Each distinct key appears once. It carries the first value given for it. Keys stay in the order of their first occurrence. With distinct keys nothing changes.
- **Empty claim sets.** An empty claim set is passed as `null`, and the token then has no custom claims.
- **Token fields.** A created token has not-before = now, expiry = `ExpireAt` = now + minutes, and the policy's issuer and audience.
- **Validation.** It is exactly "readable, signed under the secret, every enabled check passing". Every fault is folded into `false`, and it reads only the seven policy fields it names.
- **GetClaims.** It fails with "Token is invalid" exactly on invalid tokens. Otherwise it returns the validated token's own claims.
- **The external-login identity.** It is the first email and the first name-identifier value of a valid token, or null. No other claim matters.
- **Round trip.** A created token validates, and `GetClaims` gives back exactly the collapsed claims.

## Model

| member | source | states |
|---|---|---|
| `Providers.NewTokenProvider` | src/Common/Providers/TokenProvider.cs:20-34 | every option field lands unchanged in `TokenInfo`: reading the fields back gives the options |
| `Providers.CreateAccessToken` | src/Common/Providers/TokenProvider.cs:85-107 | succeeds iff minutes > 0, now + minutes stays within DateTime's range and the secret is not empty. Each failure names its cause: date out of range, then empty key, then expiry not after not-before. `ExpireAt` = now + minutes. The token is the library's signing of {policy issuer, policy audience, not-before = now, that expiry, the lookup's first values} under the secret's ASCII bytes |
| `Providers.ClaimsArgument` | src/Common/Providers/TokenProvider.cs:94-96 | the claims argument is null exactly when the lookup is empty; either way the token's claims are exactly the lookup's first values |
| `Providers.CreateAccessTokenFromTuples` | src/Common/Providers/TokenProvider.cs:48-51 | same success condition and expiry as the lookup overload; the token carries the collapse of the given pairs |
| `Providers.CreateAccessTokenFromKeyValues` | src/Common/Providers/TokenProvider.cs:76-78 | same success condition and expiry as the lookup overload; the token carries the collapse of the key/value pairs |
| `Providers.TupleAndKeyValueOverloadsAgree` | src/Common/Providers/TokenProvider.cs:76-78 | the key-value overload and the tuple overload give the same result for the same pairs |
| `Providers.CreatedTokenFields` | src/Common/Providers/TokenProvider.cs:87-106 | a created token reads back with the policy issuer and audience, not-before = now, expiry = now + minutes = `ExpireAt`, and the lookup's first values; an empty lookup gives null claims and a token without custom claims |
| `Providers.CreatedTokenValidates` | src/Common/Providers/TokenProvider.cs:85-107 | round trip: a created token is valid whenever the lifetime and key checks that are on accept it, and `GetClaims` gives back exactly its claims |
| `Providers.CreatedTokenReturnsCollapsedClaims` | src/Common/Providers/TokenProvider.cs:48-51 | claims given as pairs come back one per distinct key, exactly the input keys, each with its first value, in first-occurrence order; with distinct keys, exactly the pairs given |
| `Claims.ToLookupGroups` | src/Common/Providers/TokenProvider.cs:50 | `ToLookup` puts every value of a key into its key's group in input order, every input key gets a group, and groups follow the order of their keys' first occurrences |
| `Claims.CollapseKeepsFirstValues` | src/Common/Providers/TokenProvider.cs:95 | after collapsing: keys distinct, the key set equals the input's, each value is the value at the key's first occurrence, and claims follow first-occurrence order |
| `Claims.DuplicateKeyKeepsFirstValue` | src/Common/Providers/TokenProvider.cs:95 | two values for one key collapse to the first alone |
| `Claims.CollapseOfDistinctKeys` | src/Common/Providers/TokenProvider.cs:95 | with no key repeated, collapsing returns the pairs unchanged and in order |
| `Claims.CollapseIsIdempotent` | src/Common/Providers/TokenProvider.cs:95 | collapsing an already collapsed claim list changes nothing |
| `Platform.AddMinutes` | src/Common/Providers/TokenProvider.cs:88 | the result lies exactly minutes × 60 seconds after `now`; out-of-range results raise ArgumentOutOfRange, and only those |
| `Platform.AsciiBytes` | src/Common/Providers/TokenProvider.cs:99 | one byte per character, every byte ASCII, ASCII characters kept as they are |
| `Platform.NonAsciiSecretsShareKeyBytes` | src/Common/Providers/TokenProvider.cs:183 | two different secrets can give the same key bytes |
| `IdentityModel.SymmetricSecurityKey` | src/Common/Providers/TokenProvider.cs:99 | the key is accepted iff it has at least one byte, and is kept as given |
| `IdentityModel.NewJwtSecurityToken` | src/Common/Providers/TokenProvider.cs:90-100 | the token is built iff not-before < expires; a null claim list gives no claims; the other fields are kept |
| `IdentityModel.ValidateToken` | src/Common/Providers/TokenProvider.cs:174-184 | a validated token is the one the string reads as. Its signature verifies under the expected key. Each enabled check holds: issuer, audience, lifetime, signing key |
| `Providers.ValidationParametersFor` | src/Common/Providers/TokenProvider.cs:174-183 | the validation parameters exist iff the secret is not empty (the key constructor throws inside the try block otherwise) |
| `Providers.ValidatedToken` | src/Common/Providers/TokenProvider.cs:171-186 | the `out` token, when not null, is the token the string reads as |
| `Providers.IsTokenValid` | src/Common/Providers/TokenProvider.cs:166-194 | true only for a non-empty secret and a string that reads as a JWT |
| `Providers.IsTokenValidExactly` | src/Common/Providers/TokenProvider.cs:166-194 | valid iff the secret is not empty, the token reads, its signature verifies, and each enabled check passes against the policy issuer, audience and key |
| `Providers.ValidationReadsOnlyItsPolicyFields` | src/Common/Providers/TokenProvider.cs:174-183 | two policies that agree on the four switches, the issuer, the audience and the secret validate every token alike |
| `Providers.TamperedTokenIsRejected` | src/Common/Providers/TokenProvider.cs:172-190 | a token whose signature does not verify under the secret is invalid, and `GetClaims` fails with "Token is invalid" |
| `Providers.AudienceSwitchDecides` | src/Common/Providers/TokenProvider.cs:179-182 | a token that passes every other check but names another audience is valid iff `ValidateAudience` is off |
| `Providers.IssuerSwitchDecides` | src/Common/Providers/TokenProvider.cs:176-181 | a token that passes every other check but names another issuer is valid iff `ValidateIssuer` is off |
| `Providers.GetClaims` | src/Common/Providers/TokenProvider.cs:147-159 | fails with "Token is invalid" exactly when `IsTokenValid` is false. Otherwise it returns the claims of the token read after removing "Bearer ", or no claims when that string reads as another kind of token |
| `Providers.GetClaimsOfValidToken` | src/Common/Providers/TokenProvider.cs:152-158 | on a valid token, the "Bearer " removal changes nothing, and the result is the validated token's own claims |
| `Providers.GetClaimsExactly` | src/Common/Providers/TokenProvider.cs:147-159 | for every token: invalid ones fail with "Token is invalid"; valid ones give their own claims |
| `Providers.MalformedTokenIsTurnedDown` | src/Common/Providers/TokenProvider.cs:113-150 | an unreadable string gives `false` from `IsTokenValid`, "Token is invalid" from `GetClaims` and null from `GetTokenExternalLoginInfo` |
| `Providers.BearerPrefixedTokenIsRejected` | src/Common/Providers/TokenProvider.cs:149-154 | "Bearer " followed by any token is invalid, and `GetClaims` refuses it |
| `Providers.BearerPrefixIsAccepted` | src/Common/Providers/TokenProvider.cs:154 | for a token without spaces (as every JWT in compact serialization is), corrected `GetClaims` (prefix removed before validation) treats "Bearer " + token as the token itself, and agrees with `GetClaims` on the bare token |
| `Providers.GetClaimsAcceptingBearer` | src/Common/Providers/TokenProvider.cs:147-159 | corrected `GetClaims`: fails with "Token is invalid" exactly when the token without its prefix is invalid |
| `Platform.RemoveAll` | src/Common/Providers/TokenProvider.cs:154 | the result is no longer than the input, and it only holds characters of the input |
| `Platform.RemoveAllWithoutOccurrence` | src/Common/Providers/TokenProvider.cs:154 | a string lacking a character of the pattern is returned unchanged |
| `Platform.RemoveAllLeading` | src/Common/Providers/TokenProvider.cs:154 | a leading occurrence is removed |
| `Platform.RemoveAllIsOnePass` | src/Common/Providers/TokenProvider.cs:154 | the replacement is a single pass: removing an inner "Bearer " can leave a new one behind |
| `Claims.IndexOfType` | src/Common/Providers/TokenProvider.cs:119-120 | the position of the earliest claim of a type, or none exactly when no claim has that type |
| `Claims.FirstOfTypeIgnoresOtherTypes` | src/Common/Providers/TokenProvider.cs:119-120 | claims of other types do not change which claim of a type comes first |
| `Providers.LoginInfoFromClaims` | src/Common/Providers/TokenProvider.cs:118-136 | an identity exists iff there is an email claim and a name-identifier claim; its values are those of the first of each |
| `Providers.LoginInfoIgnoresOtherClaims` | src/Common/Providers/TokenProvider.cs:119-136 | claim lists that agree on their email and name-identifier claims give the same identity |
| `Providers.GetTokenExternalLoginInfo` | src/Common/Providers/TokenProvider.cs:109-139 | null for a token that is invalid at the first check; an identity only when the token is valid at both clock readings, and then (under `Laws`) exactly the identity in the token's own claims |
| `Providers.ExternalLoginExactly` | src/Common/Providers/TokenProvider.cs:109-139 | with one clock reading it never throws, and gives an identity iff the token is valid and has both claims; the identity holds the first email and first name-identifier values |
| `Providers.ExternalLoginIgnoresOtherClaims` | src/Common/Providers/TokenProvider.cs:118-136 | two valid tokens that agree on their email and name-identifier claims give the same result |
| `Providers.ExternalLoginExample` | src/Common/Providers/TokenProvider.cs:109-139 | {email "a@b.com", name identifier "42"} gives ("a@b.com", "42"); dropping either claim gives null |
| `Providers.ExternalLoginThrowsWhenTokenLapses` | src/Common/Providers/TokenProvider.cs:113-118 | a token valid at the first clock reading and invalid at the second makes the operation throw "Token is invalid" |
| `Providers.GetTokenExternalLoginInfoOnce` | src/Common/Providers/TokenProvider.cs:109-139 | corrected: one validation; an identity only for a valid token, and for a valid token exactly the identity in its claims; it cannot throw |
| `Providers.ExternalLoginOnceAgrees` | src/Common/Providers/TokenProvider.cs:109-139 | with one clock reading, the source's operation and the single-validation one agree |

Five functions model source expressions directly and carry no contract of their own. Their properties are stated by the lemmas in the rows above:

- `Claims.Add` and `Claims.ToLookup` model `ToLookup` at TokenProvider.cs:50 and :78 (`Claims.ToLookupGroups`).
- `Claims.FirstValues` and `Claims.Collapse` model the `Select` of first values at :95 (`Claims.CollapseKeepsFirstValues` and the collapse lemmas after it).
- `Claims.FirstOfType` models `FirstOrDefault` by type at :119-120 (`Claims.FirstOfTypeIgnoresOtherTypes`, and `Providers.LoginInfoFromClaims` through `Claims.IndexOfType`).

The contracts of `Platform.AddMinutes`, `IdentityModel.SymmetricSecurityKey` and `IdentityModel.NewJwtSecurityToken` record how those .NET calls behave. They follow their bodies case by case and hold no proof work.

Two behaviours of the code that differ from what a reader might expect:

- **Unreadable strings in `GetClaims`.** An unreadable string does not give an empty claim list. `GetClaims` checks validity first, so it fails with "Token is invalid". The empty list only arises when a token that has just validated reads as a non-JWT security token after "Bearer " is removed. Under `Laws` that cannot happen (`GetClaimsOfValidToken`).
- **Non-positive `expiresInMinutes`.** The source does not check that `expiresInMinutes` is positive. A value of 0, or a negative value that stays in range, is refused by the `JwtSecurityToken` constructor, which requires the expiry to come after not-before. A value that takes the expiry outside DateTime's range, above `DateTime.MaxValue` or below 0001-01-01 (for example Int32.MinValue minutes), is refused first by `DateTime.AddMinutes`.

## Findings

| source | as written | input that shows it | evidently intended | confidence | as-written member | corrected member |
|---|---|---|---|---|---|---|
| src/Common/Providers/TokenProvider.cs:149-154 | `GetClaims` validates the raw string and only then removes "Bearer ", so the removal never helps: a prefixed token always fails validation | `"Bearer " + t` for any token `t`. A JWT in compact serialization holds no space, so the prefixed string never validates | remove the prefix, then validate and read the bare token, so that "Bearer " + t behaves like t | medium; not executed; relies on ReadToken refusing strings with spaces | `Providers.BearerPrefixedTokenIsRejected` | `Providers.BearerPrefixIsAccepted` |
| src/Common/Providers/TokenProvider.cs:113-118 | `GetTokenExternalLoginInfo` calls `IsTokenValid`, then `GetClaims` calls it again with a second clock reading; if validity changes in between, `GetClaims` throws through an operation meant to return null | a token whose lifetime ends between the two clock readings, with `ValidateLifetime` on | validate once and take the claims of the validated token, returning null for invalid tokens and never throwing | low; not executed; the window is the time between two `UtcNow` readings | `Providers.ExternalLoginThrowsWhenTokenLapses` | `Providers.ExternalLoginOnceAgrees` |

The as-written members stay the model of the source. The corrected ones (`GetClaimsAcceptingBearer`, `GetTokenExternalLoginInfoOnce`) stand beside them, each with its property proved.

## Left out

- JWT machinery: HMAC-SHA256 signing, base64url and the compact serialization of RFC 7519 and section 7.1 of RFC 7515. All of it is in the abstract `writeToken`, `readToken` and `signatureVerifies`. Reading internals such as the maximum token size are folded into `readToken` as well. `Laws` is an assumption about that library, not a proof.
- The library's lifetime check and its clock skew: `lifetimeAccepted` is abstract, so expiry-boundary claims (for example, whether a token is still accepted exactly at its expiry) are not modelled.
- The issuer-signing-key check: `signingKeyAccepted` is abstract.
- Providers.CreateAccessToken: does not model the library's minimum HMAC-SHA256 key size of 128 bits. `WriteToken` throws for a secret of 1 to 15 ASCII characters; the model signs it. The contract's "succeeds iff" is therefore wider than the source's for such secrets.
- Providers.IsTokenValid: does not model that minimum key size either. For a secret of 1 to 15 characters the library's signature check throws, so the source returns false; the model decides by `signatureVerifies`.
- IdentityModel.ValidateToken: the issuer and audience checks are plain equality with the expected value. The library also rejects every token when the switch is on and the expected issuer or audience is blank, whatever the token holds; the model accepts a token whose issuer or audience equals that blank value.
- The registered claims: the library's `JwtSecurityToken.Claims` also lists the payload's `iss`, `aud`, `nbf` and `exp` entries. A custom claim named like one of them is overwritten by the payload field. The model's token record keeps only the custom claims, so `GetClaims` returns only those.
- The clock: `DateTime.UtcNow` is the `now` (or `checkedAt`/`readAt`) parameter. Instants are in whole seconds, so sub-second precision is not modelled.
- `CreateAccessTokenAsync` (both overloads, TokenProvider.cs:58-69): it only dispatches the synchronous call through `Task.Run`.
- The `TokenInfo` property (TokenProvider.cs:41): it is the `tokenInfo` field of the `TokenProvider` datatype.
- Claim keys are `object`s whose `ToString()` is used, and values can be null. The model uses non-null strings, so `ToString` collisions are not modelled, and neither are the `Claim` constructor's null checks or a null `IOptions` value.
- Characters: Dafny's `char` is a Unicode scalar value, while C# strings are UTF-16. A character outside the Basic Multilingual Plane is one `char` here and one `?` byte in both. A lone surrogate, which a C# string can hold, cannot be represented here.
- The `null` check on the `out` token of `ValidateToken`: the library sets that token whenever validation returns, so the model's `ValidatedToken` is null only when validation throws.
- `Common.Models` (the `TokenInfo`, `AccessTokenModel` and `TokenExternalLoginInfo` classes) is not part of this model. Their fields are taken from the way TokenProvider.cs uses them.
- Startup.cs (dependency injection registration, JWT bearer middleware, HTTPS and cookies), ManageController.cs (an HTTP action with stubbed user and sign-in objects, and URL encoding), ExternalLoginRequest.cs (a form DTO), ITokenProvider.cs (signatures only) and JwtTokenOptions.cs (declarations only): framework wiring or declarations without behaviour. The options appear only as the `JwtTokenOptions` datatype.
