/** The account flows of `services/user_service.rs`. The repository is an in-memory table of
    rows, standing in for the `users` table, that records the queries made of it;
    identifier generation and the clock of `create` are the parameters `newId` and `now`.
    bcrypt's `hash` and `verify` are the function values of a `Bcrypt`, whose random salt is
    the parameter `salt`; `BcryptSound` states what the service relies on. */
module UserServices {
  import opened Prelude
  import opened Uuids
  import opened ApiErrors
  import opened Entities
  import opened Jwt
  import opened AuthRequest
  import opened AuthResponse
  import opened AuthMiddleware

  /** The column a lookup filters on: `find_by_id`, `find_by_email`, `find_by_username`. */
  datatype Key = ById(id: Uuid) | ByEmail(email: string) | ByUsername(username: string)

  predicate Matches(user: User, key: Key) {
    match key
    case ById(id) => user.id == id
    case ByEmail(email) => user.email == email
    case ByUsername(username) => user.username == username
  }

  /** A `SELECT … WHERE column = $1` fetched with `fetch_optional`: the first matching row. */
  function FindFirst(table: seq<User>, key: Key): (r: Option<User>)
    ensures r.None? <==> forall i :: 0 <= i < |table| ==> !Matches(table[i], key)
    ensures r.Some? ==> r.value in table && Matches(r.value, key)
  {
    if table == [] then None
    else if Matches(table[0], key) then Some(table[0])
    else
      var rest := FindFirst(table[1..], key);
      assert forall i :: 1 <= i < |table| ==> table[i] == table[1..][i - 1];
      rest
  }

  /** Appending a row changes a lookup only when nothing matched before and the row does. */
  lemma {:induction false} FindFirstAppend(table: seq<User>, user: User, key: Key)
    ensures FindFirst(table + [user], key) ==
      if FindFirst(table, key).Some? then FindFirst(table, key)
      else if Matches(user, key) then Some(user) else None
  {
    if table != [] {
      assert (table + [user])[1..] == table[1..] + [user];
      FindFirstAppend(table[1..], user, key);
    }
  }

  /** No two rows share an email, and no two share a username. */
  ghost predicate UniqueAccounts(table: seq<User>) {
    && (forall i, j :: 0 <= i < |table| && 0 <= j < |table| && table[i].email == table[j].email ==> i == j)
    && (forall i, j :: 0 <= i < |table| && 0 <= j < |table| && table[i].username == table[j].username ==> i == j)
  }

  /** With unique accounts, an email or username lookup finds the one row that has it. */
  lemma FindUnique(table: seq<User>, key: Key, i: nat)
    requires UniqueAccounts(table) && !key.ById?
    requires i < |table| && Matches(table[i], key)
    ensures FindFirst(table, key) == Some(table[i])
  {
    var r := FindFirst(table, key);
    var j :| 0 <= j < |table| && table[j] == r.value;
  }

  /** A repository query, as the service issues it. */
  datatype RepoCall = FindCall(key: Key) | CreateCall(user: NewUser)

  /** The repository: its rows, in insertion order, and the log of the queries made of it. */
  class UserRepository {
    var users: seq<User>
    ghost var calls: seq<RepoCall>

    constructor (users: seq<User>)
      ensures this.users == users && calls == []
    {
      this.users := users;
      calls := [];
    }

    /** `find_by_id`, `find_by_email`, `find_by_username`: reads the table. */
    method Find(key: Key) returns (r: Option<User>)
      modifies this
      ensures users == old(users) && calls == old(calls) + [FindCall(key)]
      ensures r == FindFirst(users, key)
    {
      calls := calls + [FindCall(key)];
      r := FindFirst(users, key);
    }

    /** `create`: the new row has the given id, the submitted fields, and `now` as both its
        creation and update time; it is appended to the table. */
    method Create(newUser: NewUser, newId: Uuid, now: Timestamp) returns (user: User)
      modifies this
      ensures user == User(newId, newUser.email, newUser.username, newUser.passwordHash, now, now)
      ensures users == old(users) + [user] && calls == old(calls) + [CreateCall(newUser)]
    {
      user := User(newId, newUser.email, newUser.username, newUser.passwordHash, now, now);
      calls := calls + [CreateCall(newUser)];
      users := users + [user];
    }
  }

  /** bcrypt's `hash(password, cost)` with the salt it draws, and `verify(password, hash)`;
      errors are their error texts. */
  datatype Bcrypt = Bcrypt(
    hash: (string, nat, seq<Byte>) -> Result<string, string>,
    verify: (string, string) -> Result<bool, string>)

  /** `bcrypt::DEFAULT_COST`. */
  const DefaultCost: nat := 12

  /** The version prefix of every hash the crate's `hash` produces. */
  const HashPrefix := "$2b$"

  /** What the service relies on: a hash verifies against the password it was made from, and
      it is written in the modular-crypt format of the `2b` version. */
  ghost predicate BcryptSound(b: Bcrypt) {
    forall password, cost, salt :: b.hash(password, cost, salt).Ok? ==>
      && b.verify(password, b.hash(password, cost, salt).value) == Ok(true)
      && HashPrefix <= b.hash(password, cost, salt).value
  }

  /** The library calls the service makes: the token library, bcrypt and the `email` rule. */
  datatype Libraries = Libraries(jwtLib: JwtLib, bcrypt: Bcrypt, isEmail: string -> bool)

  const DuplicateEmailMessage := "이미 존재하는 이메일입니다"
  const DuplicateUsernameMessage := "이미 존재하는 사용자명입니다"
  const BadCredentialsMessage := "잘못된 이메일 또는 비밀번호입니다"
  const TokenType := "Bearer"

  /** What `register` does to a table: its result, the table afterwards and the queries made. */
  datatype Registration = Registration(result: Result<RegisterResponse, ApiError>, table: seq<User>, calls: seq<RepoCall>)

  /** What a read-only operation returns and the queries it made. */
  datatype Answer<T> = Answer(result: Result<T, ApiError>, calls: seq<RepoCall>)

  /** `register`, step by step: validate; reject a taken email; reject a taken username; hash;
      create. Each failure returns at once. */
  function RegisterSpec(libs: Libraries, table: seq<User>, req: RegisterRequest, salt: seq<Byte>, newId: Uuid, now: Timestamp): (reg: Registration)
    ensures reg.result.Err? ==> reg.table == table && |reg.calls| <= 2
    ensures reg.result.Ok? ==> && |reg.table| == |table| + 1 && reg.table[..|table|] == table
                               && reg.table[|table|].id == newId && reg.table[|table|].createdAt == now
                               && reg.result.value == RegisterResponseFrom(reg.table[|table|])
                               && |reg.calls| == 3
  {
    var errors := ValidateRegister(req, libs.isEmail);
    if errors != [] then Registration(Err(FromValidationErrors(errors)), table, [])
    else if FindFirst(table, ByEmail(req.email)).Some? then
      Registration(Err(Conflict(DuplicateEmailMessage)), table, [FindCall(ByEmail(req.email))])
    else if FindFirst(table, ByUsername(req.username)).Some? then
      Registration(Err(Conflict(DuplicateUsernameMessage)), table, [FindCall(ByEmail(req.email)), FindCall(ByUsername(req.username))])
    else
      var lookups := [FindCall(ByEmail(req.email)), FindCall(ByUsername(req.username))];
      match libs.bcrypt.hash(req.password, DefaultCost, salt)
      case Err(e) => Registration(Err(FromBcryptError(e)), table, lookups)
      case Ok(passwordHash) =>
        var newUser := NewUser(req.email, req.username, passwordHash);
        var user := User(newId, req.email, req.username, passwordHash, now, now);
        Registration(Ok(RegisterResponseFrom(user)), table + [user], lookups + [CreateCall(newUser)])
  }

  /** `login`, step by step: validate; look the email up; verify the password; sign a token. */
  function LoginSpec(libs: Libraries, jwt: JwtService, table: seq<User>, req: LoginRequest, now: Timestamp): (a: Answer<LoginResponse>)
    ensures a.calls == [] <==> ValidateLogin(req, libs.isEmail) != []
    ensures a.calls != [] ==> a.calls == [FindCall(ByEmail(req.email))]
    ensures a.result.Ok? ==> a.result.value.tokenType == "Bearer" && a.result.value.expiresIn == 86400
    ensures a.result.Ok? ==> FindFirst(table, ByEmail(req.email)).Some?
                             && a.result.value.user == UserInfoFrom(FindFirst(table, ByEmail(req.email)).value)
  {
    var errors := ValidateLogin(req, libs.isEmail);
    if errors != [] then Answer(Err(FromValidationErrors(errors)), [])
    else
      var lookups := [FindCall(ByEmail(req.email))];
      match FindFirst(table, ByEmail(req.email))
      case None => Answer(Err(Unauthorized(BadCredentialsMessage)), lookups)
      case Some(user) =>
        match libs.bcrypt.verify(req.password, user.passwordHash)
        case Err(e) => Answer(Err(FromBcryptError(e)), lookups)
        case Ok(matches) =>
          if !matches then Answer(Err(Unauthorized(BadCredentialsMessage)), lookups)
          else match GenerateToken(jwt, libs.jwtLib, user.id, user.email, user.username, now)
            case Err(e) => Answer(Err(e), lookups)
            case Ok(token) => Answer(Ok(LoginResponse(token, TokenType, ExpiresInSeconds(jwt), UserInfoFrom(user))), lookups)
  }

  /** `get_user_by_id`, `get_user_by_email`, `get_user_by_username`: the projection of the
      row the lookup finds. */
  function GetUserSpec(table: seq<User>, key: Key): (a: Answer<Option<UserInfo>>)
    ensures a.result.Ok? && a.calls == [FindCall(key)]
    ensures a.result.value.None? <==> forall i :: 0 <= i < |table| ==> !Matches(table[i], key)
  {
    match FindFirst(table, key)
    case None => Answer(Ok(None), [FindCall(key)])
    case Some(user) => Answer(Ok(Some(UserInfoFrom(user))), [FindCall(key)])
  }

  /** The service: a repository and a token service fixed at construction. */
  class UserService {
    const repository: UserRepository
    const jwt: JwtService

    /** `UserService::new`: the default token service. */
    constructor (repository: UserRepository)
      ensures this.repository == repository && jwt == Default()
    {
      this.repository := repository;
      jwt := Default();
    }

    /** `UserService::new_with_jwt`. */
    constructor WithJwt(repository: UserRepository, jwt: JwtService)
      ensures this.repository == repository && this.jwt == jwt
    {
      this.repository := repository;
      this.jwt := jwt;
    }

    /** `register`. */
    method Register(libs: Libraries, req: RegisterRequest, salt: seq<Byte>, newId: Uuid, now: Timestamp)
      returns (r: Result<RegisterResponse, ApiError>)
      modifies repository
      ensures var spec := RegisterSpec(libs, old(repository.users), req, salt, newId, now);
        && r == spec.result
        && repository.users == spec.table
        && repository.calls == old(repository.calls) + spec.calls
    {
      var errors := ValidateRegister(req, libs.isEmail);
      if errors != [] {
        return Err(FromValidationErrors(errors));
      }
      var byEmail := repository.Find(ByEmail(req.email));
      if byEmail.Some? {
        return Err(Conflict(DuplicateEmailMessage));
      }
      var byUsername := repository.Find(ByUsername(req.username));
      if byUsername.Some? {
        return Err(Conflict(DuplicateUsernameMessage));
      }
      var hashed := libs.bcrypt.hash(req.password, DefaultCost, salt);
      if hashed.Err? {
        return Err(FromBcryptError(hashed.error));
      }
      var newUser := NewUser(req.email, req.username, hashed.value);
      var user := repository.Create(newUser, newId, now);
      return Ok(RegisterResponseFrom(user));
    }

    /** `login`: the table is only read. */
    method Login(libs: Libraries, req: LoginRequest, now: Timestamp) returns (r: Result<LoginResponse, ApiError>)
      modifies repository
      ensures var spec := LoginSpec(libs, jwt, old(repository.users), req, now);
        && r == spec.result
        && repository.users == old(repository.users)
        && repository.calls == old(repository.calls) + spec.calls
    {
      var errors := ValidateLogin(req, libs.isEmail);
      if errors != [] {
        return Err(FromValidationErrors(errors));
      }
      var found := repository.Find(ByEmail(req.email));
      if found.None? {
        return Err(Unauthorized(BadCredentialsMessage));
      }
      var user := found.value;
      var verified := libs.bcrypt.verify(req.password, user.passwordHash);
      if verified.Err? {
        return Err(FromBcryptError(verified.error));
      }
      if !verified.value {
        return Err(Unauthorized(BadCredentialsMessage));
      }
      var token := GenerateToken(jwt, libs.jwtLib, user.id, user.email, user.username, now);
      if token.Err? {
        return Err(token.error);
      }
      var expiresIn := ExpiresInSeconds(jwt);
      return Ok(LoginResponse(token.value, TokenType, expiresIn, UserInfoFrom(user)));
    }

    /** `get_user_by_id`, `get_user_by_email` and `get_user_by_username`, one per key. */
    method GetUser(key: Key) returns (r: Result<Option<UserInfo>, ApiError>)
      modifies repository
      ensures var spec := GetUserSpec(old(repository.users), key);
        && r == spec.result
        && repository.users == old(repository.users)
        && repository.calls == old(repository.calls) + spec.calls
    {
      var user := repository.Find(key);
      if user.None? {
        return Ok(None);
      }
      return Ok(Some(UserInfoFrom(user.value)));
    }
  }

  // Properties of register.

  /** Validation comes first: an invalid request is a `Validation` error listing the failed
      rules, made before any query, and the table is unchanged. */
  lemma RegisterValidatesFirst(libs: Libraries, table: seq<User>, req: RegisterRequest, salt: seq<Byte>, newId: Uuid, now: Timestamp)
    requires !RegisterValid(req, libs.isEmail)
    ensures var o := RegisterSpec(libs, table, req, salt, newId, now);
      && o.result == Err(Validation(ValidationText(ValidateRegister(req, libs.isEmail))))
      && o.table == table && o.calls == []
  {
  }

  /** A taken email is a conflict; the username is never looked up and nothing is created. */
  lemma RegisterDuplicateEmail(libs: Libraries, table: seq<User>, req: RegisterRequest, salt: seq<Byte>, newId: Uuid, now: Timestamp, i: nat)
    requires RegisterValid(req, libs.isEmail)
    requires i < |table| && table[i].email == req.email
    ensures var o := RegisterSpec(libs, table, req, salt, newId, now);
      && o.result == Err(Conflict(DuplicateEmailMessage))
      && o.table == table && o.calls == [FindCall(ByEmail(req.email))]
  {
    assert Matches(table[i], ByEmail(req.email));
  }

  /** With the email free, a taken username is a conflict and nothing is created. */
  lemma RegisterDuplicateUsername(libs: Libraries, table: seq<User>, req: RegisterRequest, salt: seq<Byte>, newId: Uuid, now: Timestamp, i: nat)
    requires RegisterValid(req, libs.isEmail)
    requires forall j :: 0 <= j < |table| ==> table[j].email != req.email
    requires i < |table| && table[i].username == req.username
    ensures var o := RegisterSpec(libs, table, req, salt, newId, now);
      && o.result == Err(Conflict(DuplicateUsernameMessage))
      && o.table == table && o.calls == [FindCall(ByEmail(req.email)), FindCall(ByUsername(req.username))]
  {
    assert Matches(table[i], ByUsername(req.username));
  }

  /** Registration succeeds exactly when the request is valid, the email and the username are
      free and hashing succeeds. */
  lemma RegisterSucceedsIff(libs: Libraries, table: seq<User>, req: RegisterRequest, salt: seq<Byte>, newId: Uuid, now: Timestamp)
    ensures RegisterSpec(libs, table, req, salt, newId, now).result.Ok? <==>
      && RegisterValid(req, libs.isEmail)
      && (forall j :: 0 <= j < |table| ==> table[j].email != req.email)
      && (forall j :: 0 <= j < |table| ==> table[j].username != req.username)
      && libs.bcrypt.hash(req.password, DefaultCost, salt).Ok?
  {
    var emailFree := FindFirst(table, ByEmail(req.email)).None?;
    var usernameFree := FindFirst(table, ByUsername(req.username)).None?;
    assert emailFree <==> forall j :: 0 <= j < |table| ==> !Matches(table[j], ByEmail(req.email));
    assert usernameFree <==> forall j :: 0 <= j < |table| ==> !Matches(table[j], ByUsername(req.username));
  }

  /** A failed registration leaves the table as it was; a successful one appends exactly one
      row, with the request's email and username, bcrypt's hash of the password in place of
      the password, and the given id and time, and answers with that row's projection. */
  lemma RegisterEffect(libs: Libraries, table: seq<User>, req: RegisterRequest, salt: seq<Byte>, newId: Uuid, now: Timestamp)
    ensures var o := RegisterSpec(libs, table, req, salt, newId, now);
      && (o.result.Err? ==> o.table == table)
      && (o.result.Ok? ==>
            && libs.bcrypt.hash(req.password, DefaultCost, salt).Ok?
            && var user := User(newId, req.email, req.username, libs.bcrypt.hash(req.password, DefaultCost, salt).value, now, now);
            && o.table == table + [user]
            && o.result.value == RegisterResponse(newId, req.email, req.username, now)
            && o.calls[|o.calls| - 1] == CreateCall(NewUser(req.email, req.username, user.passwordHash)))
  {
  }

  /** The stored hash is never the raw password, for any password not itself written in the
      hash format. */
  lemma RegisterStoresNoPassword(libs: Libraries, table: seq<User>, req: RegisterRequest, salt: seq<Byte>, newId: Uuid, now: Timestamp)
    requires BcryptSound(libs.bcrypt)
    requires !(HashPrefix <= req.password)
    requires RegisterSpec(libs, table, req, salt, newId, now).result.Ok?
    ensures var o := RegisterSpec(libs, table, req, salt, newId, now);
      o.table[|o.table| - 1].passwordHash != req.password
  {
    var h := libs.bcrypt.hash(req.password, DefaultCost, salt);
    assert HashPrefix <= h.value;
  }

  /** Registration keeps emails and usernames unique. */
  lemma RegisterKeepsAccountsUnique(libs: Libraries, table: seq<User>, req: RegisterRequest, salt: seq<Byte>, newId: Uuid, now: Timestamp)
    requires UniqueAccounts(table)
    ensures UniqueAccounts(RegisterSpec(libs, table, req, salt, newId, now).table)
  {
    var o := RegisterSpec(libs, table, req, salt, newId, now);
    if o.result.Ok? {
      RegisterSucceedsIff(libs, table, req, salt, newId, now);
      var t := o.table;
      assert t[..|table|] == table;
      forall i, j | 0 <= i < |t| && 0 <= j < |t| && t[i].email == t[j].email ensures i == j {
        if i < |table| && j < |table| {
          assert t[i] == table[i] && t[j] == table[j];
        }
      }
      forall i, j | 0 <= i < |t| && 0 <= j < |t| && t[i].username == t[j].username ensures i == j {
        if i < |table| && j < |table| {
          assert t[i] == table[i] && t[j] == table[j];
        }
      }
    }
  }

  // Properties of login.

  /** Validation comes first: an invalid request is a `Validation` error made before any
      query, whatever the table holds. */
  lemma LoginValidatesFirst(libs: Libraries, jwt: JwtService, table: seq<User>, req: LoginRequest, now: Timestamp)
    requires !LoginValid(req, libs.isEmail)
    ensures var a := LoginSpec(libs, jwt, table, req, now);
      a.result == Err(Validation(ValidationText(ValidateLogin(req, libs.isEmail)))) && a.calls == []
  {
  }

  /** An unknown email is rejected as bad credentials. */
  lemma LoginUnknownEmail(libs: Libraries, jwt: JwtService, table: seq<User>, req: LoginRequest, now: Timestamp)
    requires LoginValid(req, libs.isEmail)
    requires forall j :: 0 <= j < |table| ==> table[j].email != req.email
    ensures LoginSpec(libs, jwt, table, req, now).result == Err(Unauthorized(BadCredentialsMessage))
  {
    assert FindFirst(table, ByEmail(req.email)).None?;
  }

  /** A wrong password for a known email gets the very same error as an unknown email, so a
      client cannot tell the two apart. */
  lemma LoginWrongPassword(libs: Libraries, jwt: JwtService, table: seq<User>, req: LoginRequest, now: Timestamp, i: nat)
    requires LoginValid(req, libs.isEmail) && UniqueAccounts(table)
    requires i < |table| && table[i].email == req.email
    requires libs.bcrypt.verify(req.password, table[i].passwordHash) == Ok(false)
    ensures LoginSpec(libs, jwt, table, req, now).result == Err(Unauthorized(BadCredentialsMessage))
  {
    FindUnique(table, ByEmail(req.email), i);
  }

  /** The only `Unauthorized` login error is the bad-credentials one, and every failure after
      validation is one of the documented kinds. */
  lemma LoginErrors(libs: Libraries, jwt: JwtService, table: seq<User>, req: LoginRequest, now: Timestamp)
    requires LoginSpec(libs, jwt, table, req, now).result.Err?
    ensures var e := LoginSpec(libs, jwt, table, req, now).result.error;
      && (e.Unauthorized? ==> e.msg == BadCredentialsMessage)
      && (e.Validation? || e.Unauthorized? || e.PasswordHash? || e.Internal?)
      && (e.Validation? <==> !LoginValid(req, libs.isEmail))
  {
  }

  /** A successful login answers with the `Bearer` type, the service's window, a token signed
      for the row found by email, and that row's projection. */
  lemma LoginSuccess(libs: Libraries, jwt: JwtService, table: seq<User>, req: LoginRequest, now: Timestamp)
    requires LoginSpec(libs, jwt, table, req, now).result.Ok?
    ensures var resp := LoginSpec(libs, jwt, table, req, now).result.value;
      && FindFirst(table, ByEmail(req.email)).Some?
      && var user := FindFirst(table, ByEmail(req.email)).value;
      && user.email == req.email
      && libs.bcrypt.verify(req.password, user.passwordHash) == Ok(true)
      && resp.tokenType == "Bearer"
      && resp.expiresIn == jwt.expiresIn
      && resp.user == UserInfo(user.id, user.email, user.username)
      && GenerateToken(jwt, libs.jwtLib, user.id, user.email, user.username, now) == Ok(resp.accessToken)
  {
  }

  /** A service built by `new` or `new_with_jwt(JwtService::new(_))` reports a 24-hour window. */
  lemma LoginExpiresInDay(libs: Libraries, secret: string, table: seq<User>, req: LoginRequest, now: Timestamp)
    requires LoginSpec(libs, New(secret), table, req, now).result.Ok?
    ensures LoginSpec(libs, New(secret), table, req, now).result.value.expiresIn == 86400
  {
    LoginSuccess(libs, New(secret), table, req, now);
  }

  /** The lookups answer with the projection of the row found, or none when no row matches. */
  lemma GetUserAnswers(table: seq<User>, key: Key)
    ensures var a := GetUserSpec(table, key);
      && a.result.Ok?
      && (a.result.value.None? <==> forall j :: 0 <= j < |table| ==> !Matches(table[j], key))
      && (a.result.value.Some? ==> exists j :: 0 <= j < |table| && Matches(table[j], key) && a.result.value.value == UserInfoFrom(table[j]))
  {
    var r := FindFirst(table, key);
    if r.Some? {
      var j :| 0 <= j < |table| && table[j] == r.value;
    }
  }

  // Register, then log in.

  /** After a successful registration, the new row is what a lookup by its email finds, and
      its hash verifies against the registered password. */
  lemma RegisteredRowFound(libs: Libraries, table: seq<User>, req: RegisterRequest, salt: seq<Byte>, newId: Uuid, now: Timestamp)
    requires BcryptSound(libs.bcrypt)
    requires RegisterSpec(libs, table, req, salt, newId, now).result.Ok?
    ensures var o := RegisterSpec(libs, table, req, salt, newId, now);
      && FindFirst(o.table, ByEmail(req.email)).Some?
      && var user := FindFirst(o.table, ByEmail(req.email)).value;
      && user.id == newId && user.email == req.email && user.username == req.username
      && libs.bcrypt.verify(req.password, user.passwordHash) == Ok(true)
  {
    var o := RegisterSpec(libs, table, req, salt, newId, now);
    RegisterSucceedsIff(libs, table, req, salt, newId, now);
    var h := libs.bcrypt.hash(req.password, DefaultCost, salt).value;
    var user := User(newId, req.email, req.username, h, now, now);
    assert o.table == table + [user];
    FindFirstAppend(table, user, ByEmail(req.email));
    assert FindFirst(table, ByEmail(req.email)).None?;
  }

  /** After a successful registration, logging in with the same email and password finds the
      new row and either succeeds with its identity or fails only because the token could not
      be signed. */
  lemma RegisteredUserCanLogin(libs: Libraries, jwt: JwtService, table: seq<User>, req: RegisterRequest,
                               salt: seq<Byte>, newId: Uuid, now: Timestamp, later: Timestamp)
    requires BcryptSound(libs.bcrypt)
    requires RegisterSpec(libs, table, req, salt, newId, now).result.Ok?
    ensures var a := LoginSpec(libs, jwt, RegisterSpec(libs, table, req, salt, newId, now).table, LoginRequest(req.email, req.password), later);
      && (a.result.Ok? ==> a.result.value.user == UserInfo(newId, req.email, req.username))
      && (a.result.Err? ==> a.result.error.Internal?)
  {
    var t := RegisterSpec(libs, table, req, salt, newId, now).table;
    RegisteredRowFound(libs, table, req, salt, newId, now);
    RegisterSucceedsIff(libs, table, req, salt, newId, now);
    RegisteredCredentialsPassLogin(req, libs.isEmail);
    LoginGivenVerified(libs, jwt, t, LoginRequest(req.email, req.password), later);
  }

  /** Once validation passes and the found row's hash verifies, login fails only in signing. */
  lemma LoginGivenVerified(libs: Libraries, jwt: JwtService, table: seq<User>, req: LoginRequest, now: Timestamp)
    requires LoginValid(req, libs.isEmail)
    requires FindFirst(table, ByEmail(req.email)).Some?
    requires libs.bcrypt.verify(req.password, FindFirst(table, ByEmail(req.email)).value.passwordHash) == Ok(true)
    ensures var a := LoginSpec(libs, jwt, table, req, now);
      && (a.result.Ok? ==> a.result.value.user == UserInfoFrom(FindFirst(table, ByEmail(req.email)).value))
      && (a.result.Err? ==> a.result.error.Internal?)
  {
  }

  /** The token of a successful login, presented as `Bearer <token>` before it expires, gets
      through the authentication gate with the identity of the user who logged in. */
  lemma LoginTokenAdmitted(libs: Libraries, jwt: JwtService, table: seq<User>, req: LoginRequest, now: Timestamp, later: Timestamp)
    requires Lawful(libs.jwtLib)
    requires LoginSpec(libs, jwt, table, req, now).result.Ok?
    requires later < now + jwt.expiresIn
    ensures var resp := LoginSpec(libs, jwt, table, req, now).result.value;
      && (forall i :: 0 <= i < |Bearer + resp.accessToken| ==> IsAscii((Bearer + resp.accessToken)[i]))
      && MandatoryVerdict(jwt, libs.jwtLib, later, [AsciiBytes(Bearer + resp.accessToken)])
           == Admitted(AuthUser(resp.user.id, resp.user.email, resp.user.username))
  {
    LoginSuccess(libs, jwt, table, req, now);
    var user := FindFirst(table, ByEmail(req.email)).value;
    IssuedTokenAdmitted(jwt, libs.jwtLib, user.id, user.email, user.username, now, later, 1);
    assert Repeat(Bearer, 1) == Bearer;
  }
}
