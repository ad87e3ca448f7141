/** The token service of `utils/jwt.rs`: claims, issuance and verification of HS256 JSON Web
    Tokens (RFC 7519). The `jsonwebtoken` library's `encode`, `decode` and HS256 signing are kept abstract
    as the function values of a `JwtLib`; `Lawful` states the facts about them the service
    relies on. The wall clock is the parameter `now`. */
module Jwt {
  import opened Prelude
  import opened Uuids
  import opened ApiErrors
  import opened Entities

  /** The claims set: subject (the user id as text), email, username, expiry and issue time,
      both as Unix timestamps in seconds. */
  datatype Claims = Claims(sub: string, email: string, username: string, exp: int, iat: int)

  /** `EncodingKey::from_secret` and `DecodingKey::from_secret`: HMAC keys holding the secret. */
  datatype EncodingKey = EncodingKeyFromSecret(secret: string)
  datatype DecodingKey = DecodingKeyFromSecret(secret: string)

  /** The service's three fields; `expiresIn` is the validity window in seconds. */
  datatype JwtFields = JwtFields(encodingKey: EncodingKey, decodingKey: DecodingKey, expiresIn: int)

  /** `Duration::hours(24)`, in seconds. */
  const ValidityWindow: int := 24 * 60 * 60

  /** The development secret of `JwtService::default()`. */
  const DefaultSecret := "your-secret-key-change-this-in-production"

  const TokenCreationFailedPrefix := "JWT 토큰 생성 실패: "
  const InvalidTokenPrefix := "유효하지 않은 토큰: "

  /** Both keys come from the same secret. */
  predicate FromOneSecret(svc: JwtFields) {
    svc.encodingKey.secret == svc.decodingKey.secret
  }

  /** A `JwtService`: its fields are private and `new` is its only constructor, so both keys
      come from one secret and the window is 24 hours. */
  type JwtService = svc: JwtFields | FromOneSecret(svc) && svc.expiresIn == ValidityWindow
    witness JwtFields(EncodingKeyFromSecret(""), DecodingKeyFromSecret(""), 86400)

  /** `JwtService::new(secret)`: both keys from the one secret, a 24-hour window. */
  function New(secret: string): (svc: JwtService)
    ensures svc.encodingKey.secret == secret && svc.decodingKey.secret == secret
    ensures svc.expiresIn == 86400
  {
    JwtFields(EncodingKeyFromSecret(secret), DecodingKeyFromSecret(secret), ValidityWindow)
  }

  /** Every service is the one `new` builds from its secret. */
  lemma ServiceIsNew(svc: JwtService)
    ensures svc == New(svc.encodingKey.secret)
  {
  }

  /** `JwtService::default()`. */
  function Default(): (svc: JwtService)
    ensures svc == New(DefaultSecret)
  {
    New(DefaultSecret)
  }

  /** `expires_in_seconds()`: the window in whole seconds, 86400 for every service. */
  function ExpiresInSeconds(svc: JwtService): (n: int)
    ensures n == 86400
  {
    svc.expiresIn
  }

  /** In particular for the services built by `new` and `default`. */
  lemma ExpiresInOfNew(secret: string)
    ensures ExpiresInSeconds(New(secret)) == 86400
    ensures ExpiresInSeconds(Default()) == 86400
  {
  }

  /** The first segment of every token signed with `Header::default()`: the base64url form of
      `{"typ":"JWT","alg":"HS256"}`. */
  const DefaultHeaderSegment := "eyJ0eXAiOiJKV1QiLCJhbGciOiJIUzI1NiJ9"

  /** Characters of the base64url alphabet, and the '.' between segments. */
  predicate IsTokenChar(c: char) {
    ('A' <= c <= 'Z') || ('a' <= c <= 'z') || ('0' <= c <= '9') || c == '-' || c == '_' || c == '.'
  }

  /** The shape of every token the library signs with the default header. */
  predicate TokenShaped(t: string) {
    && DefaultHeaderSegment + "." <= t
    && forall i :: 0 <= i < |t| ==> IsTokenChar(t[i])
  }

  /** Value of a base64url digit (RFC 4648, section 5). */
  function Base64UrlValue(c: char): (r: Option<nat>)
    ensures r.Some? ==> r.value < 64
    ensures r.Some? <==> IsTokenChar(c) && c != '.'
  {
    if 'A' <= c <= 'Z' then Some(c as int - 'A' as int)
    else if 'a' <= c <= 'z' then Some(c as int - 'a' as int + 26)
    else if '0' <= c <= '9' then Some(c as int - '0' as int + 52)
    else if c == '-' then Some(62)
    else if c == '_' then Some(63)
    else None
  }

  /** Bytes a JSON text may start with: an object, an array (serde also reads a struct from
      one) or white space. */
  predicate JsonStartByte(b: int) {
    b == 0x7B || b == 0x5B || b == 0x20 || b == 0x09 || b == 0x0A || b == 0x0D
  }

  /** The first byte the two leading base64url digits of a token decode to is a possible start
      of the JSON header. */
  predicate HeaderStartsJson(t: string) {
    && |t| >= 2
    && Base64UrlValue(t[0]).Some? && Base64UrlValue(t[1]).Some?
    && JsonStartByte(Base64UrlValue(t[0]).value * 4 + Base64UrlValue(t[1]).value / 16)
  }

  /** Index of the last '.', or -1 when there is none. */
  function LastDot(t: string): (r: int)
    ensures -1 <= r < |t|
    ensures r >= 0 ==> t[r] == '.' && '.' !in t[r + 1..]
    ensures r == -1 <==> '.' !in t
  {
    if t == [] then -1
    else if t[|t| - 1] == '.' then |t| - 1
    else
      var r := LastDot(t[..|t| - 1]);
      assert t == t[..|t| - 1] + [t[|t| - 1]];
      r
  }

  /** A compact serialisation `header.payload.signature` whose signature segment is the
      signature of `header.payload` under the secret. */
  predicate SignedUnder(sign: (string, string) -> string, t: string, secret: string) {
    var d := LastDot(t);
    d >= 0 && '.' in t[..d] && t[d + 1..] == sign(t[..d], secret)
  }

  /** A compact serialisation `header.payload.signature` whose header's first byte could start a
      JSON text: what `decode` can accept at all, whatever the key. */
  predicate JwsShaped(t: string) {
    LastDot(t) >= 0 && '.' in t[..LastDot(t)] && HeaderStartsJson(t)
  }

  /** The `jsonwebtoken` calls: `encode(&Header::default(), claims, key)`,
      `decode(token, key, &Validation::default())` at the instant `now`, the expiry rule of
      `Validation::default()`, whose exact boundary and leeway are the library's, and the
      HS256 signature of a signing input under a secret, in base64url. Errors are the
      library's error texts. */
  datatype JwtLib = JwtLib(
    encode: (Claims, EncodingKey) -> Result<string, string>,
    decode: (string, DecodingKey, Timestamp) -> Result<Claims, string>,
    unexpired: (Claims, Timestamp) -> bool,
    sign: (string, string) -> string)

  /** What the service relies on:
      - signed tokens have the default-header shape and carry the signature of their signing
        input under the key's secret;
      - round trip: a token signed under a secret decodes under the same secret to its claims
        while they are unexpired;
      - decoding succeeds only on a three-segment token whose signature is the secret's
        signature of its first two segments, whose header decodes to the start of a JSON text,
        and whose claims are unexpired;
      - claims whose expiry is still in the future are unexpired (the library only adds a
        leeway on top). */
  ghost predicate Lawful(lib: JwtLib) {
    && (forall c, k :: lib.encode(c, k).Ok? ==>
          TokenShaped(lib.encode(c, k).value) && SignedUnder(lib.sign, lib.encode(c, k).value, k.secret))
    && (forall c, s, now ::
          lib.encode(c, EncodingKeyFromSecret(s)).Ok? && lib.unexpired(c, now) ==>
          lib.decode(lib.encode(c, EncodingKeyFromSecret(s)).value, DecodingKeyFromSecret(s), now) == Ok(c))
    && (forall t, s, now :: lib.decode(t, DecodingKeyFromSecret(s), now).Ok? ==>
          && lib.unexpired(lib.decode(t, DecodingKeyFromSecret(s), now).value, now)
          && SignedUnder(lib.sign, t, s)
          && HeaderStartsJson(t))
    && (forall c: Claims, now: Timestamp :: now < c.exp ==> lib.unexpired(c, now))
  }

  /** The claims `generate_token` signs: the id rendered by `to_string`, the email and
      username verbatim, issued at `now` and expiring one window later. */
  function IssueClaims(svc: JwtService, userId: Uuid, email: string, username: string, now: Timestamp): (c: Claims)
    ensures c.sub == ToString(userId) && c.email == email && c.username == username
    ensures c.iat == now && c.exp == c.iat + svc.expiresIn
  {
    Claims(ToString(userId), email, username, now + svc.expiresIn, now)
  }

  /** `generate_token`: signs the issued claims; a signing failure becomes `Internal`. */
  function GenerateToken(svc: JwtService, lib: JwtLib, userId: Uuid, email: string, username: string, now: Timestamp): (r: Result<string, ApiError>)
    ensures r.Ok? <==> lib.encode(IssueClaims(svc, userId, email, username, now), svc.encodingKey).Ok?
    ensures r.Ok? ==> Ok(r.value) == lib.encode(IssueClaims(svc, userId, email, username, now), svc.encodingKey)
    ensures r.Err? ==> r.error.Internal?
  {
    match lib.encode(IssueClaims(svc, userId, email, username, now), svc.encodingKey)
    case Ok(token) => Ok(token)
    case Err(e) => Err(Internal(TokenCreationFailedPrefix + e))
  }

  /** `verify_token`: decodes and validates; every failure becomes `Unauthorized`. */
  function VerifyToken(svc: JwtService, lib: JwtLib, token: string, now: Timestamp): (r: Result<Claims, ApiError>)
    ensures r.Ok? <==> lib.decode(token, svc.decodingKey, now).Ok?
    ensures r.Ok? ==> Ok(r.value) == lib.decode(token, svc.decodingKey, now)
    ensures r.Err? ==> r.error.Unauthorized?
  {
    match lib.decode(token, svc.decodingKey, now)
    case Ok(claims) => Ok(claims)
    case Err(e) => Err(Unauthorized(InvalidTokenPrefix + e))
  }

  /** Round trip: a freshly generated token verifies, at any instant before its expiry, to the
      claims it was issued with, whose subject is the user id and whose email and username are
      the ones given. */
  lemma GenerateThenVerify(svc: JwtService, lib: JwtLib, userId: Uuid, email: string, username: string, now: Timestamp, later: Timestamp)
    requires Lawful(lib)
    requires GenerateToken(svc, lib, userId, email, username, now).Ok?
    requires later < now + svc.expiresIn
    ensures VerifyToken(svc, lib, GenerateToken(svc, lib, userId, email, username, now).value, later)
         == Ok(IssueClaims(svc, userId, email, username, now))
  {
    var c := IssueClaims(svc, userId, email, username, now);
    assert lib.unexpired(c, later);
    assert svc.encodingKey == EncodingKeyFromSecret(svc.decodingKey.secret);
  }

  /** Every token the service generates has the default-header shape and is signed under the
      service's secret. */
  lemma GeneratedTokenShaped(svc: JwtService, lib: JwtLib, userId: Uuid, email: string, username: string, now: Timestamp)
    requires Lawful(lib)
    requires GenerateToken(svc, lib, userId, email, username, now).Ok?
    ensures TokenShaped(GenerateToken(svc, lib, userId, email, username, now).value)
    ensures SignedUnder(lib.sign, GenerateToken(svc, lib, userId, email, username, now).value, svc.decodingKey.secret)
  {
    var c := IssueClaims(svc, userId, email, username, now);
    assert lib.encode(c, svc.encodingKey).Ok?;
  }

  /** Only a token carrying the service secret's signature verifies; it has three segments,
      its header starts a JSON text, and the verified claims are unexpired. */
  lemma VerifiedTokenWasSigned(svc: JwtService, lib: JwtLib, token: string, now: Timestamp)
    requires Lawful(lib)
    requires VerifyToken(svc, lib, token, now).Ok?
    ensures SignedUnder(lib.sign, token, svc.decodingKey.secret)
    ensures HeaderStartsJson(token)
    ensures lib.unexpired(VerifyToken(svc, lib, token, now).value, now)
  {
    assert lib.decode(token, DecodingKeyFromSecret(svc.decodingKey.secret), now).Ok?;
  }

  /** A token that is not `header.payload.signature`, or whose header cannot start a JSON text,
      is rejected with `Unauthorized`. */
  lemma MalformedTokenRejected(svc: JwtService, lib: JwtLib, token: string, now: Timestamp)
    requires Lawful(lib)
    requires !JwsShaped(token)
    ensures VerifyToken(svc, lib, token, now).Err?
    ensures VerifyToken(svc, lib, token, now).error.Unauthorized?
  {
    if VerifyToken(svc, lib, token, now).Ok? {
      VerifiedTokenWasSigned(svc, lib, token, now);
      assert false;
    }
  }

  /** The unit test's malformed token `invalid.token.here` is rejected: its header segment
      `invalid` decodes to a first byte 0x8A, which no JSON text starts with. */
  lemma InvalidTokenHereRejected(svc: JwtService, lib: JwtLib, now: Timestamp)
    requires Lawful(lib)
    ensures VerifyToken(svc, lib, "invalid.token.here", now).Err?
  {
    var t := "invalid.token.here";
    assert Base64UrlValue(t[0]) == Some(34) && Base64UrlValue(t[1]) == Some(39);
    assert !HeaderStartsJson(t);
    MalformedTokenRejected(svc, lib, t, now);
  }
}
