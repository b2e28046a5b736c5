/** The interface of the token service the handlers call. Signing, verification and expiry
    are not part of this model: the issuer and the verifier are parameters of the
    operations that use them. */
module Tokens {
  import opened Http

  /** The claims a token is issued with: the subject username. */
  datatype Claims = Claims(sub: string)

  /** What the `sub` entry of a decoded payload holds. */
  datatype ClaimValue = Text(text: string) | NotText

  /** The outcome of `verify_token`: it raises, or yields a payload whose `sub` entry is
      absent or null (None) or holds some value. */
  datatype Verification = Raised | Decoded(sub: Option<ClaimValue>)

  /** `create_access_token(data, expires_delta)`, with the lifetime in minutes. */
  type TokenIssuer = (Claims, nat) -> string

  /** `verify_token(token)`. */
  type TokenVerifier = string -> Verification

  /** The lifetime of an access token issued at login. */
  const AccessTokenMinutes: nat := 30

  /** The `token_type` of every token response. */
  const BearerTokenType := "bearer"
}
