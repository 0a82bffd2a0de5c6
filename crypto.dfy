/**
 * Symbolic stand-ins for the two cryptographic libraries: bcrypt (password
 * hashing) and jsonwebtoken (signed tokens). Nothing here models their
 * internals: a hash records its salt and a digest from which only Compare
 * reads, and a token records what was signed, with which key and until
 * when. The lemmas are the properties the services rely on.
 */
module Crypto {
  import opened Wrappers
  import opened Ids
  import opened Strings
  import opened Domain

  // bcrypt.hash(password, 10) and bcrypt.compare(password, hash)

  const HashPrefix: string := "$2b$10$"   // algorithm 2b, cost factor 10
  const SaltLength: nat := 22
  /** bcrypt reads at most the first 72 bytes of a password. */
  const MaxPasswordLength: nat := 72

  /** The random salt bcrypt draws for every hash; a parameter of the model. */
  type Salt = s: string | |s| == SaltLength witness "AAAAAAAAAAAAAAAAAAAAAA"

  /** The part of a password that bcrypt hashes. */
  function Digest(password: string): string {
    if |password| <= MaxPasswordLength then password else password[..MaxPasswordLength]
  }

  function Hash(password: string, salt: Salt): string {
    HashPrefix + salt + Digest(password)
  }

  predicate Compare(password: string, hash: string) {
    |hash| >= |HashPrefix| + SaltLength &&
    hash[..|HashPrefix|] == HashPrefix &&
    hash[|HashPrefix| + SaltLength..] == Digest(password)
  }

  /** A password matches its own hash, whatever the salt. */
  lemma CompareAcceptsOwnHash(password: string, salt: Salt)
    ensures Compare(password, Hash(password, salt))
  {
    var h := Hash(password, salt);
    assert h[..|HashPrefix|] == HashPrefix;
    assert h[|HashPrefix| + SaltLength..] == Digest(password);
  }

  /** A hash matches exactly the passwords that agree on their first 72 characters. */
  lemma CompareIffSameDigest(password: string, other: string, salt: Salt)
    ensures Compare(other, Hash(password, salt)) <==> Digest(other) == Digest(password)
  {
    var h := Hash(password, salt);
    assert h[|HashPrefix| + SaltLength..] == Digest(password);
  }

  // signJwt(payload) and verifyJwt(token), lib/jwt.ts

  const FallbackSecret: string := "fallback-secret"

  /** The key tokens are signed and verified with: the JWT_SECRET environment variable when it is set and non-empty, a fixed fallback otherwise. */
  function JwtSecret(env: Option<string>): (secret: string)
    ensures secret != []
    ensures Present(env) ==> secret == env.value
    ensures !Present(env) ==> secret == FallbackSecret
  {
    if Present(env) then env.value else FallbackSecret
  }

  /** The claims AuthService puts in a token. */
  datatype JwtPayload = JwtPayload(userId: Id, email: string, role: Role)

  /**
   * A bearer token: one the library signed, or any other text a client
   * presents (malformed, truncated, hand-made).
   */
  datatype Token =
    | Signed(payload: JwtPayload, issuedAt: int, expiresAt: int, key: string)
    | Unsigned(text: string)

  /** expiresIn: '1d', in seconds. */
  const TokenLifetime: nat := 86400

  function SignJwt(payload: JwtPayload, secret: string, now: int): Token {
    Signed(payload, now, now + TokenLifetime, secret)
  }

  /**
   * The library's verify: the signature must be by `secret` and the token
   * not yet expired (it is rejected from its expiry instant on); any
   * failure yields null.
   */
  function VerifyJwt(token: Token, secret: string, now: int): Option<JwtPayload> {
    if token.Signed? && token.key == secret && now < token.expiresAt then Some(token.payload)
    else None
  }

  /** A token verifies during its day of validity and then stops verifying. */
  lemma VerifySignedToken(payload: JwtPayload, secret: string, issued: int, now: int)
    requires issued <= now
    ensures VerifyJwt(SignJwt(payload, secret, issued), secret, now) ==
            if now < issued + TokenLifetime then Some(payload) else None
  {
  }

  /** A token signed with another key never verifies. */
  lemma VerifyRejectsForeignKey(payload: JwtPayload, key: string, secret: string, issued: int, now: int)
    requires key != secret
    ensures VerifyJwt(SignJwt(payload, key, issued), secret, now) == None
  {
  }
}
