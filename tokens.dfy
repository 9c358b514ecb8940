/**
 * The token provider (`generateToken`, `verifyToken`, `getExpirationByType`)
 * as the credential service sees it: three opaque functions passed in as a
 * value. Signing and the expiry check happen inside them; the clock is
 * passed in: a token is generated at an issue instant and verified at an
 * instant, both in milliseconds.
 */
module Tokens {
  import opened Wrappers

  datatype TokenType = Access | Refresh

  /** The claims embedded beside the subject: `{ id, role }`. */
  datatype Claims = Claims(id: int, role: string)

  /** What a successful `verifyToken` returns: the subject (`sub`) and the claims. */
  datatype Payload = Payload(sub: string, claims: Claims)

  datatype TokenProvider = TokenProvider(
    generate: (TokenType, string, Claims, int) -> string,   // generateToken(type, subject, claims) at an issue instant
    verify: (string, TokenType, int) -> Option<Payload>,    // verifyToken(token, type) at an instant; None when it throws
    expiration: TokenType -> int)                            // getExpirationByType(type): a token's lifetime

  /** The `TokenDto` returned to clients. */
  datatype TokenDto = TokenDto(
    accessToken: string,
    accessTokenExpiration: int,
    refreshToken: string,
    refreshTokenExpiration: int)

  /**
   * An assumption about the provider, never established by this model: a
   * token checked against the type it was issued with, before its issue
   * instant plus the lifetime of that type, verifies and yields the subject
   * and claims it was issued for; checked against the other type, or from
   * that instant on, it is rejected.
   */
  ghost predicate TypeIsolated(p: TokenProvider) {
    forall ty, sub, c, issued, expected, now ::
      p.verify(p.generate(ty, sub, c, issued), expected, now)
        == if ty == expected && now < issued + p.expiration(ty) then Some(Payload(sub, c)) else None
  }
}
