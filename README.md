# Authentication core of the identity service, in Dafny

This project models the authentication core of a small Rust web service for user accounts:

- **Token service** (`utils/jwt.rs`): builds a claims set (`sub`, `email`, `username`, `exp`, `iat`) with a 24-hour window, signs it as an HS256 JSON Web Token (RFC 7519), and verifies tokens.
- **Authentication gate** (`middleware/auth.rs`):
  - The mandatory layer reads the `Authorization` header, insists on the `Bearer ` scheme, verifies the token, stores an `AuthUser` in the request's extensions, and only then runs the handler.
  - The optional layer never rejects.
- **Input rules** (`utils/validation.rs`, `dto/request/auth_request.rs`): length and character-class checks on email, username and password.
- **Account flows** (`services/user_service.rs`):
  - `register`: validate, refuse a taken email, then a taken username, hash the password, create the row.
  - `login`: validate, look up by email, verify the password, issue a token.
  - Lookups by id, email and username.
- **Error taxonomy** (`error/mod.rs`) and **response projections** (`dto/response/auth_response.rs`): the status mapping and the field-copying constructors.

Libraries the code calls are parameters:

- The `jsonwebtoken` `encode`/`decode` pair and its HS256 signature function are `Jwt.JwtLib`, with laws `Jwt.Lawful`.
- bcrypt's `hash`/`verify` pair is `UserServices.Bcrypt`, with laws `UserServices.BcryptSound`.
- The `validator` crate's `email` rule is the parameter `isEmail`.

The clock (`now`), the id and time that the repository's `create` generates (`newId`, `now`) and bcrypt's random salt (`salt`) are parameters too.

The `users` table is the class `UserServices.UserRepository`:

- its rows are a `seq<User>` in insertion order;
- a lookup is the first matching row;
- a ghost log records every query, so the contracts can say which queries each flow makes.

The `uuid` crate's `to_string` and `parse_str` are modelled concretely (`Uuids`), because the gate's identity depends on them.

Files (one module each, except `auth_response.dfy`, which holds `Entities` and `AuthResponse`):

- `prelude.dfy`: `Option`, `Result`, bytes and UTF-8 length.
- `uuid.dfy`
- `errors.dfy`
- `validation.dfy`
- `auth_request.dfy`
- `auth_response.dfy`
- `jwt.dfy`
- `auth_middleware.dfy`
- `user_service.dfy`

String lengths:

- Rust's `str::len()` counts UTF-8 bytes, modelled as `Prelude.Utf8Len`.
- The `validator` crate's `length` rule counts characters, modelled as `|s|`.

The two disagree for non-ASCII passwords. `AuthRequest.PasswordRulesDiffer` exhibits the case: the service enforces the request rule, and the helper `is_valid_password` is not called by it.

## Model

| member | source | states |
|---|---|---|
| Prelude.Utf8Width | application/src/utils/validation.rs:11 | a character's UTF-8 width is 1 to 4 bytes, and 1 exactly for ASCII |
| Prelude.Utf8Len | application/src/utils/validation.rs:11 | `str::len()`: the UTF-8 byte length is never below the character count |
| Prelude.Utf8LenBounds | application/src/utils/validation.rs:11 | a string's byte length lies between its character count and four times it, and equals the character count exactly when the string is ASCII |
| Prelude.AsciiBytes | application/src/middleware/auth.rs:36-39 | the header bytes of ASCII text have the same length, and each byte is the character's code |
| Uuids.Hex | application/src/utils/jwt.rs:37 | lowercase hex writes two digits per byte |
| Uuids.ToString | application/src/utils/jwt.rs:37 | `Uuid::to_string` writes 36 characters with '-' at positions 8, 13, 18 and 23 (8-4-4-4-12 hex groups) |
| Uuids.ParseStr | application/src/middleware/auth.rs:22 | `Uuid::parse_str` accepts only the 32-, 36-, 38- (braced) and 45-character (urn) spellings |
| Uuids.ParseToString | application/src/middleware/auth.rs:22 | `parse_str` reads back exactly the id that `to_string` wrote |
| Uuids.ToStringInjective | application/src/utils/jwt.rs:37 | distinct ids give distinct subjects |
| ApiErrors.IntoResponse | application/src/error/mod.rs:30-45 | the body is `{"error": msg}` carrying the variant's message unchanged; status 500 exactly for Database, Internal and PasswordHash; a 4xx status for every other variant |
| ApiErrors.StatusTable | application/src/error/mod.rs:32-41 | the status table: 500/500/500/422/404/400/401/409 for the eight variants |
| ApiErrors.ClientStatusIdentifiesVariant | application/src/error/mod.rs:32-41 | among client-side variants the status determines the variant |
| ApiErrors.DisplayInjective | application/src/error/mod.rs:10-28 | the `thiserror` display texts of two errors are equal only for equal errors |
| ApiErrors.FromDatabaseError | application/src/error/mod.rs:47-51 | a database error becomes `Database` with its text |
| ApiErrors.FromValidationErrors | application/src/error/mod.rs:53-57 | validation errors become `Validation` with their rendered text |
| ApiErrors.FromBcryptError | application/src/error/mod.rs:59-63 | a bcrypt error becomes `PasswordHash` with its text |
| ApiErrors.ConversionStatuses | application/src/error/mod.rs:47-63 | converted database and bcrypt errors answer 500 with their text; converted validation errors answer 422 |
| ApiErrors.Display | application/src/error/mod.rs:10-28 | the `thiserror` text of an error is a variant prefix, then ": ", then the message verbatim |
| Validators.UsernameRegexMatches | application/src/utils/validation.rs:5-7 | `^[a-zA-Z0-9_]+$` matches exactly the non-empty strings made only of word characters |
| Validators.RegexMatchIsAscii | application/src/utils/validation.rs:5-7 | a string matching the pattern has byte length equal to its length |
| Validators.IsValidEmail | application/src/utils/validation.rs:10-12 | holds iff the email contains '@' and is at most 255 bytes; then it has at most 255 characters, and for ASCII the byte bound is the character bound |
| Validators.IsValidUsername | application/src/utils/validation.rs:15-17 | holds iff the username has 3 to 50 characters, all in `[A-Za-z0-9_]` |
| Validators.IsValidPassword | application/src/utils/validation.rs:20-22 | an accepted password has 2 to 128 characters; for ASCII input it holds iff there are 8 to 128 |
| Validators.UsernameAccepted | application/src/utils/validation.rs:28-33 | "user123", "test_user" and "abc" are accepted |
| Validators.UsernameRejected | application/src/utils/validation.rs:34-38 | "ab", "user-name", "user@name" and "" are rejected |
| Validators.PasswordExamples | application/src/utils/validation.rs:40-47 | "password123" and "12345678" are accepted; "1234567" and "" are rejected |
| Validators.EmailExamples | application/src/utils/validation.rs:49-56 | "test@example.com" and "user@domain.org" are accepted; "invalid-email" and "" are rejected |
| AuthRequest.ValidateRegister | application/src/dto/request/auth_request.rs:5-16 | each of the four rules (email, username length 3-50, username pattern, password length 8-128) reports its error exactly when it fails, and no other error is reported |
| AuthRequest.RegisterValidMeans | application/src/dto/request/auth_request.rs:5-16 | a registration request is valid iff the email passes the email rule, the username has 3-50 word characters and the password has 8-128 characters |
| AuthRequest.ValidateLogin | application/src/dto/request/auth_request.rs:18-25 | the email error is reported iff the email rule fails; the password error iff the password is empty; nothing else |
| AuthRequest.LoginValidMeans | application/src/dto/request/auth_request.rs:18-25 | a login request is valid iff the email passes and the password is non-empty, with no upper bound |
| AuthRequest.RegisteredCredentialsPassLogin | application/src/dto/request/auth_request.rs:5-25 | credentials valid at registration are valid at login |
| AuthRequest.UsernameRulesAreHelper | application/src/dto/request/auth_request.rs:10-11 | the request's two username rules together are `is_valid_username` |
| AuthRequest.PasswordRulesDiffer | application/src/dto/request/auth_request.rs:14 | fifty Hangul syllables satisfy the request's character-count rule but fail the byte-count helper `is_valid_password` |
| AuthResponse.RegisterResponseFrom | application/src/dto/response/auth_response.rs:29-38 | copies id, email, username and creation time unchanged |
| AuthResponse.UserInfoFrom | application/src/dto/response/auth_response.rs:40-48 | copies id, email and username unchanged |
| AuthResponse.ProjectionsIgnoreHash | application/src/dto/response/auth_response.rs:6-27 | neither projection depends on the password hash, so neither carries it |
| AuthResponse.LoginResponseIgnoresHash | application/src/dto/response/auth_response.rs:14-20 | a login response, built around a `UserInfo`, does not depend on the hash either |
| AuthResponse.ProjectionsKeepIdentity | application/src/dto/response/auth_response.rs:40-48 | equal projections mean equal id, email and username |
| Jwt.New | application/src/utils/jwt.rs:23-29 | both keys come from the one secret, and the window is 86400 seconds |
| Jwt.ServiceIsNew | application/src/utils/jwt.rs:16-29 | every service, its fields being private, is the one `new` builds from its secret |
| Jwt.Default | application/src/utils/jwt.rs:61-66 | the default service is `new` with the development secret |
| Jwt.ExpiresInSeconds | application/src/utils/jwt.rs:56-58 | `expires_in_seconds()` is 86400 for every service |
| Jwt.ExpiresInOfNew | application/src/utils/jwt.rs:56-58 | in particular for the services built by `new` and `default` |
| Jwt.IssueClaims | application/src/utils/jwt.rs:33-42 | `sub` is the id's `to_string`, email and username are verbatim, `iat` is now and `exp == iat + expires_in` |
| Jwt.GenerateToken | application/src/utils/jwt.rs:32-46 | succeeds exactly when signing the issued claims succeeds, with that token; every signing failure is `Internal` |
| Jwt.VerifyToken | application/src/utils/jwt.rs:49-53 | succeeds exactly when decoding succeeds, with the decoded claims; every failure is `Unauthorized` |
| Jwt.GenerateThenVerify | application/src/utils/jwt.rs:73-88 | a generated token verifies before its expiry to the issued claims (subject = the id's string, same email and username) |
| Jwt.GeneratedTokenShaped | application/src/utils/jwt.rs:44 | a generated token starts with the default HS256 header segment, uses only base64url characters and '.', and carries the signature of its signing input under the service's secret |
| Jwt.VerifiedTokenWasSigned | application/src/utils/jwt.rs:49-53 | a token verifies only if it has three segments, its signature segment is the service secret's signature of the first two, its header can start a JSON text, and its claims are unexpired |
| Jwt.MalformedTokenRejected | application/src/utils/jwt.rs:49-53 | a token that is not `header.payload.signature` with a JSON header is rejected as `Unauthorized` |
| Jwt.InvalidTokenHereRejected | application/src/utils/jwt.rs:90-97 | `invalid.token.here` is rejected: its header's first byte cannot start JSON |
| AuthMiddleware.AuthUserFrom | application/src/middleware/auth.rs:19-26 | email and username copied; id is the parsed subject, or the nil id when parsing fails |
| AuthMiddleware.AuthUserOfIssuedClaims | application/src/middleware/auth.rs:19-26 | issued claims give back the identity they were issued for |
| AuthMiddleware.UnparsableSubjectBecomesNil | application/src/middleware/auth.rs:22 | claims whose subject does not parse as an id give the nil id with their email and username, not a rejection |
| AuthMiddleware.NotAUuidUnparsable | application/src/middleware/auth.rs:22 | `not-a-uuid` is such a subject |
| AuthMiddleware.ToStr | application/src/middleware/auth.rs:39 | `to_str` succeeds iff every byte is visible ASCII or tab, and then gives the same characters |
| AuthMiddleware.ToStrOfText | application/src/middleware/auth.rs:39 | visible ASCII text sent as a header reads back as that text |
| AuthMiddleware.TrimStartMatches | application/src/middleware/auth.rs:48 | the result is no longer than the header and no longer starts with the pattern; an empty pattern leaves the header unchanged |
| AuthMiddleware.AuthorizationText | application/src/middleware/auth.rs:36-39 | the header text exists iff there is a first `Authorization` value made of visible ASCII, and then it has that value's characters |
| AuthMiddleware.TrimStartMatchesSplit | application/src/middleware/auth.rs:48 | the header is some number of copies of `Bearer ` followed by the trimmed token, which does not start with `Bearer ` |
| AuthMiddleware.TrimStartMatchesOfRepeat | application/src/middleware/auth.rs:48 | trimming k copies of the scheme in front of a text that does not start with it gives back that text |
| AuthMiddleware.MandatoryVerdict | application/src/middleware/auth.rs:30-51 | the gate's decision: every rejection is `Unauthorized`, an unreadable header is rejected as missing, and admission needs a readable header with the `Bearer ` scheme |
| AuthMiddleware.OptionalIdentity | application/src/middleware/auth.rs:61-81 | the optional layer's identity exists iff the mandatory decision admits, and is the one it admits |
| AuthMiddleware.MandatoryAdmitsIff | application/src/middleware/auth.rs:30-58 | the gate admits iff the header is readable, has the scheme and the trimmed token verifies; the identity is built from those claims |
| AuthMiddleware.MandatoryRejectsUnauthorized | application/src/middleware/auth.rs:36-51 | every rejection is `Unauthorized` and answers 401 |
| AuthMiddleware.MissingHeaderRejected | application/src/middleware/auth.rs:36-40 | an absent header, or one that is not visible ASCII, is rejected as missing, and the optional layer attaches nothing |
| AuthMiddleware.NotBearerRejected | application/src/middleware/auth.rs:43-45 | a readable header without `Bearer ` is rejected with the not-bearer message, and the optional layer attaches nothing |
| AuthMiddleware.OptionalAgreesWithMandatory | application/src/middleware/auth.rs:61-85 | the optional layer attaches an identity iff the mandatory gate would admit, and it is the same identity |
| AuthMiddleware.BearerHeaderText | application/src/middleware/auth.rs:36-48 | a header of k copies of `Bearer ` plus visible text is readable, has the scheme and trims to exactly that text |
| AuthMiddleware.BearerHeaderVerdict | application/src/middleware/auth.rs:30-58 | for such a header the verdict is the verifier's answer on the text |
| AuthMiddleware.GeneratedTokenText | application/src/utils/jwt.rs:44 | a generated token is visible ASCII and does not start with `Bearer ` |
| AuthMiddleware.IssuedTokenAdmitted | application/src/middleware/auth.rs:117-139 | a generated token sent as `Bearer <token>` before expiry admits the user it was issued for, through both layers |
| AuthMiddleware.UnparsableSubjectAdmittedAsNil | application/src/middleware/auth.rs:19-58 | a verified token whose subject is not an id is admitted as the nil id with the claims' email and username, by both layers |
| AuthMiddleware.MalformedBearerRejected | application/src/middleware/auth.rs:43-51 | a bearer header whose token is not a three-segment JWS with a JSON header is rejected as `Unauthorized`, and the optional layer attaches nothing |
| AuthMiddleware.InvalidBearerTokenRejected | application/src/middleware/auth.rs:162-182 | `Bearer invalid_token` is rejected as `Unauthorized`: the token has no '.' |
| AuthMiddleware.Insert | application/src/middleware/auth.rs:55 | inserting an extension stores it under its type and leaves every other type's entry as it was |
| AuthMiddleware.RunNext | application/src/middleware/auth.rs:57 | the handler runs once on the request's extensions, which it does not change |
| AuthMiddleware.Authenticate | application/src/middleware/auth.rs:30-58 | on rejection: the gate's error, extensions unchanged, handler not run; on admission: the identity inserted, then the handler run exactly once, seeing it |
| AuthMiddleware.AuthenticateOptionally | application/src/middleware/auth.rs:61-85 | the handler always runs exactly once and nothing is returned as an error; the identity is inserted iff every step succeeds, otherwise extensions are unchanged |
| UserServices.FindFirst | application/src/repositories/user_repository.rs:53-87 | a lookup finds nothing iff no row matches, and otherwise a matching row of the table |
| UserServices.FindFirstAppend | application/src/repositories/user_repository.rs:29-51 | after a row is appended, a lookup finds what it found before, else the new row if it matches |
| UserServices.FindUnique | application/src/repositories/user_repository.rs:65-87 | with unique emails and usernames, a lookup by either finds the one row that has it |
| UserServices.UserRepository.Find | application/src/repositories/user_repository.rs:53-87 | answers the first matching row, logs the query and leaves the rows unchanged |
| UserServices.UserRepository.Create | application/src/repositories/user_repository.rs:29-51 | appends one row with the given id, the submitted fields and `now` as creation and update time, and logs the call |
| UserServices.RegisterSpec | application/src/services/user_service.rs:32-59 | `register` step by step: a failure leaves the table as it was after at most two queries; a success appends one row with the new id and time, answers its projection, and makes three calls |
| UserServices.LoginSpec | application/src/services/user_service.rs:62-88 | `login` step by step: no query iff validation fails, else exactly the email lookup; success answers type "Bearer", 86400 seconds and the projection of the row found by email |
| UserServices.GetUserSpec | application/src/services/user_service.rs:91-106 | a lookup never fails and makes its one query; it answers none iff no row matches |
| UserServices.UserService.constructor | application/src/services/user_service.rs:17-22 | `UserService::new`: the given repository and the default token service |
| UserServices.UserService.WithJwt | application/src/services/user_service.rs:24-29 | `UserService::new_with_jwt`: the given repository and token service |
| UserServices.UserService.Register | application/src/services/user_service.rs:32-59 | result, table afterwards and queries made are those of `RegisterSpec` |
| UserServices.UserService.Login | application/src/services/user_service.rs:62-88 | result and queries are those of `LoginSpec`; the table is unchanged |
| UserServices.UserService.GetUser | application/src/services/user_service.rs:91-106 | result and query are those of `GetUserSpec`; the table is unchanged |
| UserServices.RegisterValidatesFirst | application/src/services/user_service.rs:34 | an invalid request is a `Validation` error listing the failed rules, with no query made and the table unchanged |
| UserServices.RegisterDuplicateEmail | application/src/services/user_service.rs:37-39 | a taken email is `Conflict("이미 존재하는 이메일입니다")` after one email query: no username query, no create, table unchanged |
| UserServices.RegisterDuplicateUsername | application/src/services/user_service.rs:42-44 | with the email free, a taken username is `Conflict("이미 존재하는 사용자명입니다")` after the two lookups, with no create |
| UserServices.RegisterSucceedsIff | application/src/services/user_service.rs:32-59 | registration succeeds iff the request is valid, the email and the username are free and hashing succeeds |
| UserServices.RegisterEffect | application/src/services/user_service.rs:47-58 | a failure leaves the table as it was; a success appends exactly one row (request email and username, bcrypt's hash, new id, now), ends with the create call, and answers id, email, username and creation time |
| UserServices.RegisterStoresNoPassword | application/src/services/user_service.rs:47-54 | the stored hash is not the raw password (for any password not itself in the `$2b$` hash format) |
| UserServices.RegisterKeepsAccountsUnique | application/src/services/user_service.rs:37-56 | registration keeps emails and usernames unique across the table |
| UserServices.LoginValidatesFirst | application/src/services/user_service.rs:64 | an invalid login is a `Validation` error with no query made |
| UserServices.LoginUnknownEmail | application/src/services/user_service.rs:67-71 | an unknown email gives `Unauthorized("잘못된 이메일 또는 비밀번호입니다")` |
| UserServices.LoginWrongPassword | application/src/services/user_service.rs:74-76 | a wrong password for a known email gives the identical error |
| UserServices.LoginErrors | application/src/services/user_service.rs:62-88 | the only `Unauthorized` login message is the bad-credentials one; every error is Validation, Unauthorized, PasswordHash or Internal; Validation exactly for invalid requests |
| UserServices.LoginSuccess | application/src/services/user_service.rs:79-87 | success means the row found by email verified the password; the answer has type "Bearer", the service's window, a token signed for that row, and the row's projection |
| UserServices.LoginExpiresInDay | application/src/services/user_service.rs:205-237 | with a service from `JwtService::new` (as `UserService::new` uses) a login reports 86400 seconds |
| UserServices.GetUserAnswers | application/src/services/user_service.rs:91-106 | a lookup never fails; it answers none iff no row matches, else the projection of a matching row |
| UserServices.RegisteredRowFound | application/src/services/user_service.rs:47-56 | after a successful registration a lookup by the email finds the new row (new id, request email and username), whose hash verifies against the registered password |
| UserServices.LoginGivenVerified | application/src/services/user_service.rs:74-87 | once validation passes and the found row's password verifies, login succeeds with that row's projection or fails with `Internal` only |
| UserServices.RegisteredUserCanLogin | application/src/services/user_service.rs:32-88 | after a successful registration, logging in with the same credentials succeeds with the new user's identity, or fails only because signing failed |
| UserServices.LoginTokenAdmitted | application/src/services/user_service.rs:79-87 | the token of a successful login, sent as `Bearer <token>` before expiry, passes the gate with the identity that logged in |

## Left out

- Database failures: the in-memory repository never fails, so no flow returns `Database`. The conversion itself is `ApiErrors.FromDatabaseError`.
- `update` and `delete` of the repository: the service never calls them.
- Concurrency and async execution: each operation is one sequential call. Two registrations racing between the lookups and `create` are not modelled.
- The cryptography:
  - HMAC signing, base64url and the JSON encoding of tokens are abstract: `JwtLib.sign` is the HS256 signature of a signing input under a secret. `Jwt.Lawful` assumes only what `decode` checks: three segments, a signature segment equal to `sign` of the first two, a header whose first byte can start JSON, unexpired claims. It does not assume that a decodable token is the one `encode` would produce from its claims, since other headers (without `typ`, or with a `kid`) also decode. The model says nothing about forged signatures or about two secrets giving the same HMAC key.
  - bcrypt is abstract too. `UserServices.BcryptSound` says only that a hash verifies against its own password and carries the `$2b$` prefix.
- Jwt.VerifyToken: the exact expiry boundary and leeway of `Validation::default()` stay abstract (`JwtLib.unexpired`); the only assumption is that claims expiring in the future are unexpired.
- `Utc::now`, `Uuid::new_v4` and bcrypt's salt: these are parameters. An id collision with an existing row is not modelled.
- UserServices.UniqueAccounts: uniqueness of emails and usernames is an assumption about the table (the schema is not part of this model). Registration is proved to preserve it.
- `i64` timestamp overflow and sub-second precision of `DateTime<Utc>`: timestamps are unbounded whole seconds.
- ApiErrors.ValidationText: the exact display format of `validator::ValidationErrors` is the crate's. The model writes one `field: message` line per failed rule, in field declaration order.
- The HTTP layer: the HTTP handlers and routing, server setup, configuration, the health check and the OpenAPI documentation.
- AuthMiddleware.ToStr: only the first `Authorization` value is read, as `HeaderMap::get` does; header-name case folding belongs to the HTTP library.
