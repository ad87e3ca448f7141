/** The input helpers of `utils/validation.rs`: the username pattern and three length and
    character-class checks. Rust's `str::len()` counts UTF-8 bytes, so the helpers measure
    strings with `Utf8Len`. */
module Validators {
  import opened Prelude

  /** One character of the class `[a-zA-Z0-9_]`. */
  predicate IsWordChar(c: char) {
    ('a' <= c <= 'z') || ('A' <= c <= 'Z') || ('0' <= c <= '9') || c == '_'
  }

  lemma WordCharIsAscii(c: char)
    requires IsWordChar(c)
    ensures IsAscii(c)
  {
  }

  /** `USERNAME_REGEX.is_match(s)` for `^[a-zA-Z0-9_]+$`, matched one character at a time:
      it holds exactly for the non-empty strings made only of word characters. */
  function UsernameRegexMatches(s: string): (m: bool)
    ensures m <==> |s| >= 1 && forall i :: 0 <= i < |s| ==> IsWordChar(s[i])
  {
    if s == [] then false
    else if !IsWordChar(s[0]) then false
    else if |s| == 1 then true
    else
      var rest := UsernameRegexMatches(s[1..]);
      assert forall i :: 1 <= i < |s| ==> s[i] == s[1..][i - 1];
      rest
  }

  /** A string matching the username pattern is ASCII, so its byte length is its length. */
  lemma RegexMatchIsAscii(s: string)
    ensures UsernameRegexMatches(s) ==> Utf8Len(s) == |s|
  {
    if UsernameRegexMatches(s) {
      forall i | 0 <= i < |s| ensures IsAscii(s[i]) {
        WordCharIsAscii(s[i]);
      }
      Utf8LenBounds(s);
    }
  }

  /** `is_valid_email`: contains '@' and is at most 255 bytes long. Such a string has at
      most 255 characters; for ASCII input the byte limit is the character limit. */
  function IsValidEmail(email: string): (ok: bool)
    ensures ok <==> '@' in email && Utf8Len(email) <= 255
    ensures ok ==> |email| <= 255
    ensures (forall i :: 0 <= i < |email| ==> IsAscii(email[i])) ==> (ok <==> '@' in email && |email| <= 255)
  {
    Utf8LenBounds(email);
    '@' in email && Utf8Len(email) <= 255
  }

  /** `is_valid_username`: 3 to 50 bytes, all matching the pattern. Because the pattern admits
      only ASCII, this is the same as 3 to 50 word characters. */
  function IsValidUsername(username: string): (ok: bool)
    ensures ok <==> 3 <= |username| <= 50 && forall i :: 0 <= i < |username| ==> IsWordChar(username[i])
  {
    RegexMatchIsAscii(username);
    Utf8Len(username) >= 3 && Utf8Len(username) <= 50 && UsernameRegexMatches(username)
  }

  /** `is_valid_password`: 8 to 128 bytes. That is 2 to 128 characters at the extremes of
      UTF-8, and exactly 8 to 128 characters for ASCII input. */
  function IsValidPassword(password: string): (ok: bool)
    ensures ok ==> 2 <= |password| <= 128
    ensures (forall i :: 0 <= i < |password| ==> IsAscii(password[i])) ==> (ok <==> 8 <= |password| <= 128)
  {
    Utf8LenBounds(password);
    Utf8Len(password) >= 8 && Utf8Len(password) <= 128
  }

  /** The usernames the unit tests accept. */
  lemma UsernameAccepted()
    ensures IsValidUsername("user123") && IsValidUsername("test_user") && IsValidUsername("abc")
  {
    var a, b, c := "user123", "test_user", "abc";
    assert forall i :: 0 <= i < |a| ==> IsWordChar(a[i]);
    assert forall i :: 0 <= i < |b| ==> IsWordChar(b[i]);
    assert forall i :: 0 <= i < |c| ==> IsWordChar(c[i]);
  }

  /** The usernames the unit tests reject: too short, a dash, an '@', empty. */
  lemma UsernameRejected()
    ensures !IsValidUsername("ab") && !IsValidUsername("user-name") && !IsValidUsername("user@name")
    ensures !IsValidUsername("")
  {
    assert !IsWordChar("user-name"[4]);
    assert !IsWordChar("user@name"[4]);
  }

  /** The passwords the unit tests accept and reject. */
  lemma PasswordExamples()
    ensures IsValidPassword("password123") && IsValidPassword("12345678")
    ensures !IsValidPassword("1234567") && !IsValidPassword("")
  {
    assert forall i :: 0 <= i < |"password123"| ==> IsAscii("password123"[i]);
    assert forall i :: 0 <= i < |"12345678"| ==> IsAscii("12345678"[i]);
    assert forall i :: 0 <= i < |"1234567"| ==> IsAscii("1234567"[i]);
  }

  /** The emails the unit tests accept and reject. */
  lemma EmailExamples()
    ensures IsValidEmail("test@example.com") && IsValidEmail("user@domain.org")
    ensures !IsValidEmail("invalid-email") && !IsValidEmail("")
  {
    assert "test@example.com"[4] == '@';
    assert "user@domain.org"[4] == '@';
    assert forall i :: 0 <= i < |"test@example.com"| ==> IsAscii("test@example.com"[i]);
    assert forall i :: 0 <= i < |"user@domain.org"| ==> IsAscii("user@domain.org"[i]);
    assert forall i :: 0 <= i < |"invalid-email"| ==> "invalid-email"[i] != '@';
  }
}
