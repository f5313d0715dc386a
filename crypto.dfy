/**
 * Symbolic stand-ins for the two cryptographic libraries the core calls: bcrypt
 * (`hash`, `compare`) and the JWT signer behind `JwtService.signAsync`.
 *
 * Hashes and signatures are modelled as free terms: a bcrypt hash records its
 * salt and the secret it was computed from, and an HS256 signature records its
 * secret and signing input. The only law the rest of the model relies on is
 * `Compare(x, Hash(y, salt)) <==> x == y`, the ideal behaviour of bcrypt, and the
 * shape of a compact JWS (three `.`-separated segments, section 7.1 of RFC 7515).
 */
module Crypto {
  import opened Wrappers
  import opened Strings
  import opened Schema

  // ---------------------------------------------------------------- bcrypt

  /** Version `2b` of bcrypt at cost factor 10, as `bcrypt.hash(x, 10)` writes it. */
  const BCRYPT_PREFIX := "$2b$10$"

  /** bcrypt salts are 22 characters; drawing one at random is left to the caller. */
  type Salt = s: string | |s| == 22 witness "0000000000000000000000"

  /** `bcrypt.hash(secret, 10)` with the salt drawn outside. */
  function Hash(secret: string, salt: Salt): (h: string)
    ensures |h| == |BCRYPT_PREFIX| + 22 + |secret|
  {
    BCRYPT_PREFIX + salt + secret
  }

  /** `bcrypt.compare(candidate, hashed)`. */
  predicate Compare(candidate: string, hashed: string) {
    |hashed| >= |BCRYPT_PREFIX| + 22 && hashed[..|BCRYPT_PREFIX|] == BCRYPT_PREFIX
    && hashed[|BCRYPT_PREFIX| + 22..] == candidate
  }

  /** The bcrypt law: a hash accepts exactly the secret it was made from, whatever the salt. */
  lemma CompareHash(candidate: string, secret: string, salt: Salt)
    ensures Compare(candidate, Hash(secret, salt)) <==> candidate == secret
  {
    var h := Hash(secret, salt);
    assert h[..|BCRYPT_PREFIX|] == BCRYPT_PREFIX;
    assert h[|BCRYPT_PREFIX| + 22..] == secret;
  }

  /** A hash is never the secret itself. */
  lemma HashIsNotSecret(secret: string, salt: Salt)
    ensures Hash(secret, salt) != secret
  {
  }

  // ------------------------------------------------------------------- JWT

  /** The payload `{sub, email, role}` of every token the core issues (`IPayloadType`). */
  datatype Claims = Claims(sub: int, email: string, role: Role)

  function RoleName(r: Role): string {
    match r
    case Regular => "user"
    case Admin => "admin"
  }

  /**
   * A `.`-free rendering of a segment's content. It stands for base64url, whose
   * alphabet has no `.`; only that property of the encoding is used.
   */
  function Segment(s: string): (r: string)
    ensures |r| == |s| && '.' !in r
  {
    seq(|s|, i requires 0 <= i < |s| => if s[i] == '.' then '_' else s[i])
  }

  /** The JOSE header `jsonwebtoken` writes for HS256. */
  const HEADER := Segment("{\"alg\":\"HS256\",\"typ\":\"JWT\"}")

  /** The claims segment, with `iat` and `exp` in seconds as `jsonwebtoken` adds them. */
  function PayloadSegment(c: Claims, iat: int, exp: int): string {
    Segment("{\"sub\":" + IntToString(c.sub) + ",\"email\":\"" + c.email + "\",\"role\":\""
            + RoleName(c.role) + "\",\"iat\":" + IntToString(iat) + ",\"exp\":" + IntToString(exp) + "}")
  }

  /** The JWS signing input: header and payload segments joined by `.`. */
  function SigningInput(c: Claims, iat: int, exp: int): string {
    HEADER + "." + PayloadSegment(c, iat, exp)
  }

  /** The HMAC-SHA256 signature segment under `secret`, as a symbolic term. */
  function Mac(secret: string, input: string): string {
    Segment("HS256(" + secret + "," + input + ")")
  }

  /**
   * `signAsync(payload, {secret, expiresIn})` at the second `iat`: the compact
   * serialization `header.payload.signature` (section 7.1 of RFC 7515).
   */
  function Sign(c: Claims, secret: string, expiresIn: int, iat: int): string {
    var input := SigningInput(c, iat, iat + expiresIn);
    Join([HEADER, PayloadSegment(c, iat, iat + expiresIn), Mac(secret, input)], ".")
  }

  /** `token.split('.')[2]`: the third segment, or `undefined` when there is none. */
  function SignatureSegment(token: string): (r: Option<string>)
    ensures r.Some? ==> '.' !in r.value
  {
    var parts := Split(token, '.');
    if |parts| >= 3 then Some(parts[2]) else None
  }

  /** The third segment of a signed token is its signature under the signing secret. */
  lemma {:induction false} SignatureOfSigned(c: Claims, secret: string, expiresIn: int, iat: int)
    ensures SignatureSegment(Sign(c, secret, expiresIn, iat))
            == Some(Mac(secret, SigningInput(c, iat, iat + expiresIn)))
  {
    var parts := [HEADER, PayloadSegment(c, iat, iat + expiresIn), Mac(secret, SigningInput(c, iat, iat + expiresIn))];
    SplitJoin(parts, '.');
  }
}
