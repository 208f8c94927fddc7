/**
 * bcrypt and JSON Web Tokens, as symbols. The library algorithms are not part
 * of this model: a digest records the password and cost it was made from, and
 * a signed token records its claims and the secret that signed it. What the
 * services rely on is what these definitions give: `compare` accepts exactly
 * the password that was hashed, and `verify` accepts a token signed with the
 * same secret until its expiry instant.
 */
module Crypto {
  import opened Errors

  /** `bcrypt.hash(password, 12)` everywhere in the services and the seed. */
  const BCRYPT_COST := 12

  datatype Digest = BcryptDigest(plain: string, cost: nat)

  function Hash(password: string, cost: nat): Digest {
    BcryptDigest(password, cost)
  }

  function Compare(password: string, digest: Digest): bool {
    digest.plain == password
  }

  /** `bcrypt.compare` accepts the hashed password and nothing else. */
  lemma HashCompare(password: string, other: string, cost: nat)
    ensures Compare(password, Hash(password, cost))
    ensures other != password ==> !Compare(other, Hash(password, cost))
  {
  }

  /** Claims of a token: the payload `{userId}`, issued-at and expiry (seconds). */
  datatype Jwt = Jwt(userId: int, iat: int, exp: int, secret: string)

  /** A token string as a client presents it: one this system signed, or any other text. */
  datatype TokenString = Signed(jwt: Jwt) | Raw(text: string)

  /** `jwtService.sign({userId}, {secret, expiresIn})` at clock `now`. */
  function Sign(userId: int, secret: string, ttl: nat, now: int): TokenString {
    Signed(Jwt(userId, now, now + ttl, secret))
  }

  /** `jwtService.verify(token, {secret})` at clock `now`: the payload, or failure
      for a foreign string, a different secret, or `now >= exp`. */
  function Verify(token: TokenString, secret: string, now: int): Option<int> {
    match token
    case Signed(j) => if j.secret == secret && now < j.exp then Some(j.userId) else None
    case Raw(_) => None
  }

  /** A token verifies, with the payload it was signed with, from its signing
      instant until its lifetime has elapsed, and not afterwards. */
  lemma SignVerify(userId: int, secret: string, ttl: nat, now: int, t: int)
    requires now <= t
    ensures Verify(Sign(userId, secret, ttl, now), secret, t) == (if t < now + ttl then Some(userId) else None)
  {
  }

  /** A token signed with one secret is refused under another. */
  lemma VerifyNeedsSameSecret(token: TokenString, secret: string, now: int)
    requires token.Signed? && token.jwt.secret != secret
    ensures Verify(token, secret, now).None?
  {
  }

  /** The lifetimes used when the configuration leaves them unset: '1h' and '7d'. */
  const ONE_HOUR: nat := 3600
  const SEVEN_DAYS: nat := 7 * 24 * 3600
}
