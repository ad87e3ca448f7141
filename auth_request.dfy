/** The request bodies of registration and login and the rules their `#[validate]`
    attributes declare. The `validator` crate's `length` rule counts characters and its
    `email` rule is the crate's own; that rule is the parameter `isEmail`. */
module AuthRequest {
  import opened Prelude
  import opened ApiErrors
  import opened Validators

  datatype RegisterRequest = RegisterRequest(email: string, username: string, password: string)

  datatype LoginRequest = LoginRequest(email: string, password: string)

  const EmailMessage := "유효한 이메일 주소를 입력해주세요"
  const UsernameLengthMessage := "사용자명은 3-50자 사이여야 합니다"
  const UsernameRegexMessage := "사용자명은 영문, 숫자, 언더스코어만 사용 가능합니다"
  const PasswordLengthMessage := "비밀번호는 8-128자 사이여야 합니다"
  const LoginPasswordMessage := "비밀번호를 입력해주세요"

  const EmailError := FieldError("email", EmailMessage)
  const UsernameLengthError := FieldError("username", UsernameLengthMessage)
  const UsernameRegexError := FieldError("username", UsernameRegexMessage)
  const PasswordLengthError := FieldError("password", PasswordLengthMessage)
  const LoginPasswordError := FieldError("password", LoginPasswordMessage)

  /** The `length(min, max)` rule: a character count within the bounds. */
  predicate LengthWithin(s: string, min: nat, max: nat) {
    min <= |s| <= max
  }

  function Check(holds: bool, error: FieldError): seq<FieldError> {
    if holds then [] else [error]
  }

  /** `RegisterRequest::validate()`: the failed rules, field by field in declaration order.
      A rule's error is reported exactly when that rule fails, and no other error is. */
  function ValidateRegister(req: RegisterRequest, isEmail: string -> bool): (errors: seq<FieldError>)
    ensures EmailError in errors <==> !isEmail(req.email)
    ensures UsernameLengthError in errors <==> !LengthWithin(req.username, 3, 50)
    ensures UsernameRegexError in errors <==> !UsernameRegexMatches(req.username)
    ensures PasswordLengthError in errors <==> !LengthWithin(req.password, 8, 128)
    ensures forall e :: e in errors ==> e in [EmailError, UsernameLengthError, UsernameRegexError, PasswordLengthError]
  {
    Check(isEmail(req.email), EmailError)
    + Check(LengthWithin(req.username, 3, 50), UsernameLengthError)
    + Check(UsernameRegexMatches(req.username), UsernameRegexError)
    + Check(LengthWithin(req.password, 8, 128), PasswordLengthError)
  }

  /** A registration request passes validation exactly when all four rules hold. */
  predicate RegisterValid(req: RegisterRequest, isEmail: string -> bool) {
    ValidateRegister(req, isEmail) == []
  }

  lemma RegisterValidMeans(req: RegisterRequest, isEmail: string -> bool)
    ensures RegisterValid(req, isEmail) <==>
      && isEmail(req.email)
      && 3 <= |req.username| <= 50
      && (forall i :: 0 <= i < |req.username| ==> IsWordChar(req.username[i]))
      && 8 <= |req.password| <= 128
  {
    var errors := ValidateRegister(req, isEmail);
    if errors != [] {
      assert errors[0] in errors;
    }
  }

  /** `LoginRequest::validate()`: a valid email and a non-empty password, with no upper bound. */
  function ValidateLogin(req: LoginRequest, isEmail: string -> bool): (errors: seq<FieldError>)
    ensures EmailError in errors <==> !isEmail(req.email)
    ensures LoginPasswordError in errors <==> req.password == []
    ensures forall e :: e in errors ==> e in [EmailError, LoginPasswordError]
  {
    Check(isEmail(req.email), EmailError) + Check(|req.password| >= 1, LoginPasswordError)
  }

  predicate LoginValid(req: LoginRequest, isEmail: string -> bool) {
    ValidateLogin(req, isEmail) == []
  }

  lemma LoginValidMeans(req: LoginRequest, isEmail: string -> bool)
    ensures LoginValid(req, isEmail) <==> isEmail(req.email) && req.password != []
  {
    var errors := ValidateLogin(req, isEmail);
    if errors != [] {
      assert errors[0] in errors;
    }
  }

  /** Credentials accepted at registration are accepted by the login rules. */
  lemma RegisteredCredentialsPassLogin(req: RegisterRequest, isEmail: string -> bool)
    requires RegisterValid(req, isEmail)
    ensures LoginValid(LoginRequest(req.email, req.password), isEmail)
  {
    RegisterValidMeans(req, isEmail);
    LoginValidMeans(LoginRequest(req.email, req.password), isEmail);
  }

  /** The two username rules of the request are, together, the helper `is_valid_username`. */
  lemma UsernameRulesAreHelper(username: string)
    ensures LengthWithin(username, 3, 50) && UsernameRegexMatches(username) <==> IsValidUsername(username)
  {
  }

  /** The request's password rule counts characters, the helper `is_valid_password` counts
      bytes: fifty Hangul syllables are a valid request password but fail the helper. */
  lemma PasswordRulesDiffer()
    ensures var p := seq(50, i => '가');
      LengthWithin(p, 8, 128) && !IsValidPassword(p)
  {
    var p := seq(50, i => '가');
    assert forall k :: 0 <= k <= 50 ==> Utf8Len(p[..k]) == 3 * k by {
      forall k | 0 <= k <= 50 ensures Utf8Len(p[..k]) == 3 * k {
        Utf8LenOfRepeat(p, k);
      }
    }
    assert p[..50] == p;
  }

  lemma {:induction false} Utf8LenOfRepeat(p: string, k: nat)
    requires k <= |p|
    requires forall i :: 0 <= i < |p| ==> p[i] == '가'
    ensures Utf8Len(p[..k]) == 3 * k
  {
    if k > 0 {
      Utf8LenOfRepeat(p[1..], k - 1);
      assert p[..k][1..] == p[1..][..k - 1];
    }
  }
}
