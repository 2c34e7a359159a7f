/**
 * The library calls the handlers make, as symbolic values: bcrypt (hash and compare),
 * JSON Web Tokens (sign, and verify as its partner) and the profile a verified Google
 * ID token yields.  A digest and a token are terms, not strings, so the model cannot
 * confuse a digest with the password it was made from, or a student token with an
 * admin token.
 */
module Crypto {
  import opened Wrappers

  /** The random salt bcrypt draws on every call; the caller supplies it. */
  type Salt = nat

  /** The cost factor every `bcrypt.hash(password, 10)` call passes. */
  const SaltRounds: nat := 10

  /** A bcrypt digest: cost, salt and the (unrecoverable) password it commits to. */
  datatype Digest = Bcrypt(rounds: nat, salt: Salt, preimage: string)

  /** `bcrypt.compare(password, digest)`. */
  predicate Compare(password: string, digest: Digest) {
    digest.preimage == password
  }

  /** `bcrypt.hash(password, 10)`: the digest always verifies against its own password. */
  function Hash(password: string, salt: Salt): (d: Digest)
    ensures Compare(password, d)
    ensures d.rounds == SaltRounds
  {
    Bcrypt(SaltRounds, salt, password)
  }

  /** Under this model a digest verifies against one password only. */
  lemma CompareHash(password: string, attempt: string, salt: Salt)
    ensures Compare(attempt, Hash(password, salt)) <==> attempt == password
  {
  }

  /** The two signing keys the configuration supplies: `JWT_SECRET` and `ADMIN_JWT_SECRET`. */
  datatype Secret = JwtSecret | AdminJwtSecret

  /** Token payloads: `{user: {id}}` for students, `{user1: {id}}` for admins. */
  datatype Claims = User(id: nat) | User1(id: nat)

  datatype Token = Signed(claims: Claims, key: Secret)

  /** `jwt.sign(claims, key)`. */
  function Sign(claims: Claims, key: Secret): Token {
    Signed(claims, key)
  }

  /** `jwt.verify(token, key)`: the claims, when the token was signed with `key`. */
  function Verify(token: Token, key: Secret): Option<Claims> {
    if token.key == key then Some(token.claims) else None
  }

  /** A token verifies exactly under the key it was signed with, and yields its claims. */
  lemma SignVerify(claims: Claims, key: Secret, other: Secret)
    ensures Verify(Sign(claims, key), key) == Some(claims)
    ensures other != key ==> Verify(Sign(claims, key), other) == None
  {
  }

  /** The fields a verified Google ID token's payload supplies. */
  datatype GoogleProfile = GoogleProfile(email: string, name: string)
}
