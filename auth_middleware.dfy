/** The authentication gate of `middleware/auth.rs`. A request carries the values of its
    `Authorization` header and a type-keyed extension map; the gate reads the header, checks
    the `Bearer ` scheme, verifies the token and, on success, inserts an `AuthUser` into the
    extensions before the next handler runs. The optional variant never rejects. */
module AuthMiddleware {
  import opened Prelude
  import opened Uuids
  import opened ApiErrors
  import opened Entities
  import opened Jwt

  /** The identity attached to an authenticated request. */
  datatype AuthUser = AuthUser(id: Uuid, email: string, username: string)

  /** `AuthUser::from(claims)`: email and username copied; the id is the parsed subject, or
      the nil id when the subject does not parse (`unwrap_or_default`). */
  function AuthUserFrom(claims: Claims): (u: AuthUser)
    ensures u.email == claims.email && u.username == claims.username
    ensures ParseStr(claims.sub).Some? ==> u.id == ParseStr(claims.sub).value
    ensures ParseStr(claims.sub).None? ==> u.id == Nil
  {
    AuthUser(ParseStr(claims.sub).GetOr(Nil), claims.email, claims.username)
  }

  /** The identity recovered from issued claims is the one they were issued for. */
  lemma AuthUserOfIssuedClaims(svc: JwtService, userId: Uuid, email: string, username: string, now: Timestamp)
    ensures AuthUserFrom(IssueClaims(svc, userId, email, username, now)) == AuthUser(userId, email, username)
  {
    ParseToString(userId);
  }

  /** A subject that is not an id turns into the nil id rather than a rejection. */
  lemma UnparsableSubjectBecomesNil(claims: Claims)
    requires ParseStr(claims.sub).None?
    ensures AuthUserFrom(claims) == AuthUser(Nil, claims.email, claims.username)
  {
  }

  /** For instance the subject `not-a-uuid`. */
  lemma NotAUuidUnparsable()
    ensures ParseStr("not-a-uuid") == None
  {
  }

  type HeaderValue = seq<Byte>

  /** Bytes `HeaderValue::to_str` accepts: visible ASCII and the tab. */
  predicate IsVisibleAscii(b: Byte) {
    (32 <= b < 127) || b == 9
  }

  /** `HeaderValue::to_str`: the text of a value made only of visible ASCII, otherwise nothing. */
  function ToStr(v: HeaderValue): (r: Option<string>)
    ensures r.Some? <==> forall i :: 0 <= i < |v| ==> IsVisibleAscii(v[i])
    ensures r.Some? ==> |r.value| == |v| && forall i :: 0 <= i < |v| ==> r.value[i] as int == v[i]
  {
    if forall i :: 0 <= i < |v| ==> IsVisibleAscii(v[i]) then
      Some(seq(|v|, i requires 0 <= i < |v| => v[i] as char))
    else None
  }

  /** Text made of visible ASCII characters (the tab aside). */
  predicate VisibleText(s: string) {
    forall i :: 0 <= i < |s| ==> 32 <= s[i] as int < 127
  }

  lemma VisibleAppend(a: string, b: string)
    requires VisibleText(a) && VisibleText(b)
    ensures VisibleText(a + b)
  {
    forall i | 0 <= i < |a + b| ensures 32 <= (a + b)[i] as int < 127 {
      if i >= |a| {
        assert (a + b)[i] == b[i - |a|];
      } else {
        assert (a + b)[i] == a[i];
      }
    }
  }

  /** A header built from visible ASCII text reads back as that text. */
  lemma ToStrOfText(s: string)
    requires VisibleText(s)
    ensures forall i :: 0 <= i < |s| ==> IsAscii(s[i])
    ensures ToStr(AsciiBytes(s)) == Some(s)
  {
    var r := ToStr(AsciiBytes(s));
    assert r.Some?;
    assert r.value == s;
  }

  /** `headers().get(AUTHORIZATION).and_then(|h| h.to_str().ok())`: the first value of the
      header, when it is text. */
  function AuthorizationText(authorization: seq<HeaderValue>): (r: Option<string>)
    ensures r.Some? <==> |authorization| > 0 && forall i :: 0 <= i < |authorization[0]| ==> IsVisibleAscii(authorization[0][i])
    ensures r.Some? ==> |r.value| == |authorization[0]|
    ensures r.Some? ==> forall i :: 0 <= i < |r.value| ==> r.value[i] as int == authorization[0][i]
  {
    if |authorization| == 0 then None else ToStr(authorization[0])
  }

  const Bearer := "Bearer "
  const MissingHeaderMessage := "Authorization 헤더가 필요합니다"
  const NotBearerMessage := "Bearer 토큰 형식이 아닙니다"

  /** `p` repeated `k` times. */
  function Repeat(p: string, k: nat): (r: string)
    ensures |r| == k * |p|
  {
    if k == 0 then [] else p + Repeat(p, k - 1)
  }

  /** `str::trim_start_matches(p)`: removes every leading repetition of `p`. */
  function TrimStartMatches(s: string, p: string): (r: string)
    ensures |r| <= |s|
    ensures p != [] ==> !(p <= r)
    ensures p == [] ==> r == s
    decreases |s|
  {
    if p != [] && p <= s then TrimStartMatches(s[|p|..], p) else s
  }

  /** What trimming leaves: the input is some number of copies of the pattern followed by the
      result, and the result does not start with the pattern. */
  lemma {:induction false} TrimStartMatchesSplit(s: string, p: string) returns (k: nat)
    requires p != []
    ensures s == Repeat(p, k) + TrimStartMatches(s, p)
    ensures !(p <= TrimStartMatches(s, p))
    decreases |s|
  {
    if p <= s {
      var rest := s[|p|..];
      var j := TrimStartMatchesSplit(rest, p);
      k := j + 1;
      var t := TrimStartMatches(s, p);
      assert t == TrimStartMatches(rest, p);
      calc {
        s;
        p + rest;
        p + (Repeat(p, j) + t);
        (p + Repeat(p, j)) + t;
        Repeat(p, k) + t;
      }
    } else {
      k := 0;
    }
  }

  /** Conversely, that decomposition is unique: trimming `k` copies of the pattern in front
      of a text that does not start with it gives back the text. */
  lemma {:induction false} TrimStartMatchesOfRepeat(p: string, k: nat, t: string)
    requires p != [] && !(p <= t)
    ensures TrimStartMatches(Repeat(p, k) + t, p) == t
  {
    if k > 0 {
      var s := Repeat(p, k) + t;
      assert s == p + (Repeat(p, k - 1) + t);
      assert s[|p|..] == Repeat(p, k - 1) + t;
      TrimStartMatchesOfRepeat(p, k - 1, t);
    }
  }

  /** The result of the gate's three checks. */
  datatype Verdict = Rejected(error: ApiError) | Admitted(user: AuthUser)

  /** The decision of `auth_middleware`: no readable header, a header without the `Bearer `
      scheme, and a token the verifier refuses are rejected in that order; the verifier's own
      error is passed on unchanged. */
  function MandatoryVerdict(svc: JwtService, lib: JwtLib, now: Timestamp, authorization: seq<HeaderValue>): (v: Verdict)
    ensures v.Rejected? ==> v.error.Unauthorized?
    ensures v.Admitted? ==> AuthorizationText(authorization).Some? && Bearer <= AuthorizationText(authorization).value
    ensures v == Rejected(Unauthorized(MissingHeaderMessage)) <== AuthorizationText(authorization).None?
  {
    match AuthorizationText(authorization)
    case None => Rejected(Unauthorized(MissingHeaderMessage))
    case Some(header) =>
      if !(Bearer <= header) then Rejected(Unauthorized(NotBearerMessage))
      else match VerifyToken(svc, lib, TrimStartMatches(header, Bearer), now)
        case Err(e) => Rejected(e)
        case Ok(claims) => Admitted(AuthUserFrom(claims))
  }

  /** The decision of `optional_auth_middleware`: an identity only when every step succeeds. */
  function OptionalIdentity(svc: JwtService, lib: JwtLib, now: Timestamp, authorization: seq<HeaderValue>): (r: Option<AuthUser>)
    ensures r.Some? <==> MandatoryVerdict(svc, lib, now, authorization).Admitted?
    ensures r.Some? ==> r.value == MandatoryVerdict(svc, lib, now, authorization).user
  {
    if AuthorizationText(authorization).Some? then
      var header := AuthorizationText(authorization).value;
      if Bearer <= header then
        var verified := VerifyToken(svc, lib, TrimStartMatches(header, Bearer), now);
        if verified.Ok? then Some(AuthUserFrom(verified.value)) else None
      else None
    else None
  }

  /** The gate admits exactly when the header is readable text with the `Bearer ` scheme and
      the verifier accepts what remains after every leading `Bearer ` is trimmed; the
      identity is the one built from the verified claims. This only collects the three
      checks in one statement; what they mean for concrete headers is stated by
      `BearerHeaderVerdict`, `IssuedTokenAdmitted` and the rejection lemmas, and the optional
      gate is tied to this one by `OptionalAgreesWithMandatory`. */
  lemma MandatoryAdmitsIff(svc: JwtService, lib: JwtLib, now: Timestamp, authorization: seq<HeaderValue>, user: AuthUser)
    ensures MandatoryVerdict(svc, lib, now, authorization) == Admitted(user) <==>
      && AuthorizationText(authorization).Some?
      && Bearer <= AuthorizationText(authorization).value
      && VerifyToken(svc, lib, TrimStartMatches(AuthorizationText(authorization).value, Bearer), now).Ok?
      && user == AuthUserFrom(VerifyToken(svc, lib, TrimStartMatches(AuthorizationText(authorization).value, Bearer), now).value)
  {
  }

  /** Every rejection is `Unauthorized`, so the client sees 401. */
  lemma MandatoryRejectsUnauthorized(svc: JwtService, lib: JwtLib, now: Timestamp, authorization: seq<HeaderValue>)
    requires MandatoryVerdict(svc, lib, now, authorization).Rejected?
    ensures MandatoryVerdict(svc, lib, now, authorization).error.Unauthorized?
    ensures IntoResponse(MandatoryVerdict(svc, lib, now, authorization).error).status == 401
  {
  }

  /** An absent header, or one whose first value is not visible ASCII, is rejected as missing. */
  lemma MissingHeaderRejected(svc: JwtService, lib: JwtLib, now: Timestamp, authorization: seq<HeaderValue>)
    requires |authorization| == 0 || exists i :: 0 <= i < |authorization[0]| && !IsVisibleAscii(authorization[0][i])
    ensures MandatoryVerdict(svc, lib, now, authorization) == Rejected(Unauthorized(MissingHeaderMessage))
    ensures OptionalIdentity(svc, lib, now, authorization) == None
  {
  }

  /** A readable header without the scheme is rejected as not a bearer token. */
  lemma NotBearerRejected(svc: JwtService, lib: JwtLib, now: Timestamp, authorization: seq<HeaderValue>)
    requires AuthorizationText(authorization).Some? && !(Bearer <= AuthorizationText(authorization).value)
    ensures MandatoryVerdict(svc, lib, now, authorization) == Rejected(Unauthorized(NotBearerMessage))
    ensures OptionalIdentity(svc, lib, now, authorization) == None
  {
  }

  /** The optional gate attaches an identity exactly when the mandatory gate would admit. */
  lemma OptionalAgreesWithMandatory(svc: JwtService, lib: JwtLib, now: Timestamp, authorization: seq<HeaderValue>)
    ensures OptionalIdentity(svc, lib, now, authorization) ==
      match MandatoryVerdict(svc, lib, now, authorization)
      case Admitted(u) => Some(u)
      case Rejected(_) => None
  {
  }

  /** A header spelling `copies` times the scheme and then visible text that does not start
      with it reads as text, has the scheme, and trims to exactly that text. */
  lemma BearerHeaderText(copies: nat, token: string)
    requires copies >= 1 && !(Bearer <= token) && VisibleText(token)
    ensures var header := Repeat(Bearer, copies) + token;
      && (forall i :: 0 <= i < |header| ==> IsAscii(header[i]))
      && AuthorizationText([AsciiBytes(header)]) == Some(header)
      && Bearer <= header
      && TrimStartMatches(header, Bearer) == token
  {
    var header := Repeat(Bearer, copies) + token;
    RepeatBearerVisible(copies);
    VisibleAppend(Repeat(Bearer, copies), token);
    ToStrOfText(header);
    BearerPrefix(copies, token);
    TrimStartMatchesOfRepeat(Bearer, copies, token);
  }

  lemma BearerPrefix(copies: nat, token: string)
    requires copies >= 1
    ensures Bearer <= Repeat(Bearer, copies) + token
  {
    var rest := Repeat(Bearer, copies - 1) + token;
    assert Repeat(Bearer, copies) + token == Bearer + rest;
    assert (Bearer + rest)[..|Bearer|] == Bearer;
  }

  /** For such a header the verifier is asked about exactly that text. */
  lemma BearerHeaderVerdict(svc: JwtService, lib: JwtLib, now: Timestamp, copies: nat, token: string)
    requires copies >= 1 && !(Bearer <= token) && VisibleText(token)
    ensures var header := Repeat(Bearer, copies) + token;
      && (forall i :: 0 <= i < |header| ==> IsAscii(header[i]))
      && MandatoryVerdict(svc, lib, now, [AsciiBytes(header)]) ==
           match VerifyToken(svc, lib, token, now)
           case Err(e) => Rejected(e)
           case Ok(claims) => Admitted(AuthUserFrom(claims))
  {
    BearerHeaderText(copies, token);
  }

  /** A generated token starts with 'e' and is made of visible characters. */
  lemma GeneratedTokenText(svc: JwtService, lib: JwtLib, userId: Uuid, email: string, username: string, issuedAt: Timestamp)
    requires Lawful(lib)
    requires GenerateToken(svc, lib, userId, email, username, issuedAt).Ok?
    ensures var token := GenerateToken(svc, lib, userId, email, username, issuedAt).value;
      !(Bearer <= token) && VisibleText(token)
  {
    var token := GenerateToken(svc, lib, userId, email, username, issuedAt).value;
    GeneratedTokenShaped(svc, lib, userId, email, username, issuedAt);
    assert token[0] == (DefaultHeaderSegment + ".")[0];
    forall i | 0 <= i < |token| ensures 32 <= token[i] as int < 127 {
      assert IsTokenChar(token[i]);
    }
  }

  /** A token generated for a user, presented as `Bearer <token>` (or with the scheme repeated,
      which trimming also removes) before it expires, admits that user's identity. */
  lemma IssuedTokenAdmitted(svc: JwtService, lib: JwtLib, userId: Uuid, email: string, username: string,
                            issuedAt: Timestamp, now: Timestamp, copies: nat)
    requires Lawful(lib)
    requires GenerateToken(svc, lib, userId, email, username, issuedAt).Ok?
    requires now < issuedAt + svc.expiresIn
    requires copies >= 1
    ensures var header := Repeat(Bearer, copies) + GenerateToken(svc, lib, userId, email, username, issuedAt).value;
      && (forall i :: 0 <= i < |header| ==> IsAscii(header[i]))
      && MandatoryVerdict(svc, lib, now, [AsciiBytes(header)]) == Admitted(AuthUser(userId, email, username))
      && OptionalIdentity(svc, lib, now, [AsciiBytes(header)]) == Some(AuthUser(userId, email, username))
  {
    var token := GenerateToken(svc, lib, userId, email, username, issuedAt).value;
    GeneratedTokenText(svc, lib, userId, email, username, issuedAt);
    BearerHeaderVerdict(svc, lib, now, copies, token);
    GenerateThenVerify(svc, lib, userId, email, username, issuedAt, now);
    AuthUserOfIssuedClaims(svc, userId, email, username, issuedAt);
    var header := Repeat(Bearer, copies) + token;
    OptionalAgreesWithMandatory(svc, lib, now, [AsciiBytes(header)]);
  }

  lemma {:induction false} RepeatBearerVisible(k: nat)
    ensures VisibleText(Repeat(Bearer, k))
  {
    if k > 0 {
      RepeatBearerVisible(k - 1);
      assert VisibleText(Bearer);
      VisibleAppend(Bearer, Repeat(Bearer, k - 1));
    }
  }

  /** A verified token whose subject is not an id admits the nil id with the claims' email and
      username; the optional gate attaches the same identity. */
  lemma UnparsableSubjectAdmittedAsNil(svc: JwtService, lib: JwtLib, now: Timestamp, copies: nat, token: string)
    requires copies >= 1 && !(Bearer <= token) && VisibleText(token)
    requires VerifyToken(svc, lib, token, now).Ok? && ParseStr(VerifyToken(svc, lib, token, now).value.sub).None?
    ensures var header := Repeat(Bearer, copies) + token;
      var claims := VerifyToken(svc, lib, token, now).value;
      && (forall i :: 0 <= i < |header| ==> IsAscii(header[i]))
      && MandatoryVerdict(svc, lib, now, [AsciiBytes(header)]) == Admitted(AuthUser(Nil, claims.email, claims.username))
      && OptionalIdentity(svc, lib, now, [AsciiBytes(header)]) == Some(AuthUser(Nil, claims.email, claims.username))
  {
    BearerHeaderVerdict(svc, lib, now, copies, token);
    UnparsableSubjectBecomesNil(VerifyToken(svc, lib, token, now).value);
  }

  /** A bearer header whose token is not a three-segment JWS with a JSON header is rejected
      with `Unauthorized` by the gate and gives no identity to the optional gate. */
  lemma MalformedBearerRejected(svc: JwtService, lib: JwtLib, now: Timestamp, token: string)
    requires Lawful(lib)
    requires !(Bearer <= token) && VisibleText(token) && !JwsShaped(token)
    ensures forall i :: 0 <= i < |Bearer + token| ==> IsAscii((Bearer + token)[i])
    ensures MandatoryVerdict(svc, lib, now, [AsciiBytes(Bearer + token)]).Rejected?
    ensures MandatoryVerdict(svc, lib, now, [AsciiBytes(Bearer + token)]).error.Unauthorized?
    ensures OptionalIdentity(svc, lib, now, [AsciiBytes(Bearer + token)]) == None
  {
    BearerHeaderVerdict(svc, lib, now, 1, token);
    assert Repeat(Bearer, 1) == Bearer;
    MalformedTokenRejected(svc, lib, token, now);
  }

  /** The routing test's `Bearer invalid_token` is rejected with `Unauthorized`: the token has
      no '.' at all. */
  lemma InvalidBearerTokenRejected(svc: JwtService, lib: JwtLib, now: Timestamp)
    requires Lawful(lib)
    ensures forall i :: 0 <= i < |Bearer + "invalid_token"| ==> IsAscii((Bearer + "invalid_token")[i])
    ensures MandatoryVerdict(svc, lib, now, [AsciiBytes(Bearer + "invalid_token")]).Rejected?
    ensures MandatoryVerdict(svc, lib, now, [AsciiBytes(Bearer + "invalid_token")]).error.Unauthorized?
    ensures OptionalIdentity(svc, lib, now, [AsciiBytes(Bearer + "invalid_token")]) == None
  {
    var token := "invalid_token";
    assert token[0] != Bearer[0];
    assert forall i :: 0 <= i < |token| ==> token[i] != '.';
    assert LastDot(token) == -1;
    assert VisibleText(token);
    MalformedBearerRejected(svc, lib, now, token);
  }

  /** The type of an extension value is its key in the extension map. */
  datatype TypeTag = AuthUserTag | OtherTag(name: string)

  datatype Extension = AuthUserExtension(user: AuthUser) | OtherExtension(name: string, value: string)

  function TagOf(e: Extension): TypeTag {
    match e
    case AuthUserExtension(_) => AuthUserTag
    case OtherExtension(name, _) => OtherTag(name)
  }

  type Extensions = map<TypeTag, Extension>

  /** `extensions_mut().insert(value)`: replaces any value of the same type. */
  function Insert(m: Extensions, e: Extension): (r: Extensions)
    ensures TagOf(e) in r && r[TagOf(e)] == e
    ensures forall t :: t != TagOf(e) ==> (t in r <==> t in m) && (t in m ==> r[t] == m[t])
  {
    m[TagOf(e) := e]
  }

  /** `extensions().get::<AuthUser>()`. */
  function GetAuthUser(m: Extensions): Option<AuthUser> {
    if AuthUserTag in m && m[AuthUserTag].AuthUserExtension? then Some(m[AuthUserTag].user) else None
  }

  /** What a handler produces. */
  datatype Response = Response(status: nat, body: string)

  /** An in-flight request: its `Authorization` header values, in order, which the gate only
      reads; its extensions, which the gate updates in place; and how many times the next
      handler has run on it. */
  class Request {
    const authorization: seq<HeaderValue>
    var extensions: Extensions
    var handlerRuns: nat

    constructor (authorization: seq<HeaderValue>, extensions: Extensions)
      ensures this.authorization == authorization && this.extensions == extensions
      ensures handlerRuns == 0
    {
      this.authorization := authorization;
      this.extensions := extensions;
      handlerRuns := 0;
    }
  }

  /** `next.run(request)`: the handler runs once and sees the request's extensions. */
  method RunNext(req: Request, handler: Extensions -> Response) returns (resp: Response)
    modifies req
    ensures req.extensions == old(req.extensions)
    ensures req.handlerRuns == old(req.handlerRuns) + 1
    ensures resp == handler(req.extensions)
  {
    req.handlerRuns := req.handlerRuns + 1;
    resp := handler(req.extensions);
  }

  /** `auth_middleware`. On a rejection the error is returned, the extensions are unchanged
      and the handler does not run; on admission the identity is inserted and then the handler
      runs exactly once, seeing it. */
  method Authenticate(svc: JwtService, lib: JwtLib, now: Timestamp, req: Request, handler: Extensions -> Response)
    returns (r: Result<Response, ApiError>)
    modifies req
    ensures MandatoryVerdict(svc, lib, now, req.authorization).Rejected? ==>
      && r == Err(MandatoryVerdict(svc, lib, now, req.authorization).error)
      && req.extensions == old(req.extensions)
      && req.handlerRuns == old(req.handlerRuns)
    ensures MandatoryVerdict(svc, lib, now, req.authorization).Admitted? ==>
      && req.extensions == Insert(old(req.extensions), AuthUserExtension(MandatoryVerdict(svc, lib, now, req.authorization).user))
      && GetAuthUser(req.extensions) == Some(MandatoryVerdict(svc, lib, now, req.authorization).user)
      && req.handlerRuns == old(req.handlerRuns) + 1
      && r == Ok(handler(req.extensions))
  {
    var text := AuthorizationText(req.authorization);
    if text.None? {
      return Err(Unauthorized(MissingHeaderMessage));
    }
    var header := text.value;
    if !(Bearer <= header) {
      return Err(Unauthorized(NotBearerMessage));
    }
    var token := TrimStartMatches(header, Bearer);
    var verified := VerifyToken(svc, lib, token, now);
    if verified.Err? {
      return Err(verified.error);
    }
    var user := AuthUserFrom(verified.value);
    req.extensions := Insert(req.extensions, AuthUserExtension(user));
    var resp := RunNext(req, handler);
    return Ok(resp);
  }

  /** `optional_auth_middleware`. The handler always runs exactly once; the identity is
      inserted first when every step succeeds, and otherwise the extensions are unchanged. */
  method AuthenticateOptionally(svc: JwtService, lib: JwtLib, now: Timestamp, req: Request, handler: Extensions -> Response)
    returns (resp: Response)
    modifies req
    ensures OptionalIdentity(svc, lib, now, req.authorization).Some? ==>
      && req.extensions == Insert(old(req.extensions), AuthUserExtension(OptionalIdentity(svc, lib, now, req.authorization).value))
      && GetAuthUser(req.extensions) == OptionalIdentity(svc, lib, now, req.authorization)
    ensures OptionalIdentity(svc, lib, now, req.authorization).None? ==> req.extensions == old(req.extensions)
    ensures req.handlerRuns == old(req.handlerRuns) + 1
    ensures resp == handler(req.extensions)
  {
    var text := AuthorizationText(req.authorization);
    if text.Some? {
      var header := text.value;
      if Bearer <= header {
        var token := TrimStartMatches(header, Bearer);
        var verified := VerifyToken(svc, lib, token, now);
        if verified.Ok? {
          var user := AuthUserFrom(verified.value);
          req.extensions := Insert(req.extensions, AuthUserExtension(user));
        }
      }
    }
    resp := RunNext(req, handler);
  }
}
