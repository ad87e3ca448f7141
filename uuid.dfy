/** The two `uuid` crate operations the authentication core relies on: rendering an id with
    `to_string()` (the lower-case hyphenated form of RFC 9562, section 4) and reading one back
    with `Uuid::parse_str`, which accepts the simple, hyphenated, braced and URN forms. */
module Uuids {
  import opened Prelude

  type Uuid = s: seq<Byte> | |s| == 16 witness [0, 0, 0, 0, 0, 0, 0, 0, 0, 0, 0, 0, 0, 0, 0, 0]

  /** `Uuid::nil()`, which is also `Uuid::default()`. */
  const Nil: Uuid := [0, 0, 0, 0, 0, 0, 0, 0, 0, 0, 0, 0, 0, 0, 0, 0]

  const LowerHexDigits := "0123456789abcdef"

  function HexDigit(n: nat): (c: char)
    requires n < 16
  {
    LowerHexDigits[n]
  }

  /** Two lower-case hex digits per byte, most significant nibble first. */
  function Hex(bytes: seq<Byte>): (s: string)
    ensures |s| == 2 * |bytes|
  {
    if bytes == [] then [] else [HexDigit(bytes[0] / 16), HexDigit(bytes[0] % 16)] + Hex(bytes[1..])
  }

  /** `Uuid::to_string()`: 8-4-4-4-12 groups of lower-case hex digits. */
  function ToString(u: Uuid): (s: string)
    ensures |s| == 36
    ensures s[8] == '-' && s[13] == '-' && s[18] == '-' && s[23] == '-'
  {
    Hex(u[..4]) + "-" + Hex(u[4..6]) + "-" + Hex(u[6..8]) + "-" + Hex(u[8..10]) + "-" + Hex(u[10..])
  }

  /** Value of one hex digit, either case. */
  function HexValue(c: char): (r: Option<nat>)
    ensures r.Some? ==> r.value < 16
  {
    if '0' <= c <= '9' then Some(c as int - '0' as int)
    else if 'a' <= c <= 'f' then Some(c as int - 'a' as int + 10)
    else if 'A' <= c <= 'F' then Some(c as int - 'A' as int + 10)
    else None
  }

  /** Reads pairs of hex digits into bytes; fails on any non-hex character. */
  function ParseHex(s: string): (r: Option<seq<Byte>>)
    requires |s| % 2 == 0
    ensures r.Some? ==> 2 * |r.value| == |s|
  {
    if s == [] then Some([])
    else
      var hi, lo, rest := HexValue(s[0]), HexValue(s[1]), ParseHex(s[2..]);
      if hi.Some? && lo.Some? && rest.Some? then Some([hi.value * 16 + lo.value] + rest.value) else None
  }

  function ParseSimple(s: string): (r: Option<Uuid>)
    requires |s| == 32
  {
    match ParseHex(s)
    case Some(b) => Some(b)
    case None => None
  }

  /** The hyphenated form: hyphens at positions 8, 13, 18 and 23, hex digits elsewhere. */
  function ParseHyphenated(s: string): (r: Option<Uuid>)
    requires |s| == 36
  {
    if s[8] == '-' && s[13] == '-' && s[18] == '-' && s[23] == '-' then
      ParseSimple(s[..8] + s[9..13] + s[14..18] + s[19..23] + s[24..])
    else None
  }

  /** `Uuid::parse_str`: the input's length selects the form. */
  function ParseStr(s: string): (r: Option<Uuid>)
    ensures r.Some? ==> |s| in {32, 36, 38, 45}
  {
    if |s| == 32 then ParseSimple(s)
    else if |s| == 36 then ParseHyphenated(s)
    else if |s| == 38 && s[0] == '{' && s[37] == '}' then ParseHyphenated(s[1..37])
    else if |s| == 45 && s[..9] == "urn:uuid:" then ParseHyphenated(s[9..])
    else None
  }

  lemma HexDigitValue(n: nat)
    requires n < 16
    ensures HexValue(HexDigit(n)) == Some(n)
  {
  }

  lemma {:induction false} HexAppend(a: seq<Byte>, b: seq<Byte>)
    ensures Hex(a + b) == Hex(a) + Hex(b)
  {
    if a != [] {
      assert (a + b)[0] == a[0];
      assert (a + b)[1..] == a[1..] + b;
      HexAppend(a[1..], b);
      var d := [HexDigit(a[0] / 16), HexDigit(a[0] % 16)];
      calc {
        Hex(a + b);
        d + Hex(a[1..] + b);
        d + (Hex(a[1..]) + Hex(b));
        (d + Hex(a[1..])) + Hex(b);
        Hex(a) + Hex(b);
      }
    } else {
      assert a + b == b;
    }
  }

  lemma {:induction false} ParseHexOfHex(bytes: seq<Byte>)
    ensures ParseHex(Hex(bytes)) == Some(bytes)
  {
    if bytes != [] {
      var b := bytes[0];
      var s := Hex(bytes);
      assert s == [HexDigit(b / 16), HexDigit(b % 16)] + Hex(bytes[1..]);
      HexDigitValue(b / 16);
      HexDigitValue(b % 16);
      assert s[2..] == Hex(bytes[1..]);
      ParseHexOfHex(bytes[1..]);
      assert b / 16 * 16 + b % 16 == b;
      assert [b] + bytes[1..] == bytes;
    }
  }

  /** `parse_str` reads back what `to_string` writes. */
  lemma ParseToString(u: Uuid)
    ensures ParseStr(ToString(u)) == Some(u)
  {
    var s := ToString(u);
    assert s[..8] == Hex(u[..4]);
    assert s[9..13] == Hex(u[4..6]);
    assert s[14..18] == Hex(u[6..8]);
    assert s[19..23] == Hex(u[8..10]);
    assert s[24..] == Hex(u[10..]);
    HexAppend(u[..4], u[4..6]);
    HexAppend(u[..4] + u[4..6], u[6..8]);
    HexAppend(u[..4] + u[4..6] + u[6..8], u[8..10]);
    HexAppend(u[..4] + u[4..6] + u[6..8] + u[8..10], u[10..]);
    assert u[..4] + u[4..6] + u[6..8] + u[8..10] + u[10..] == u;
    ParseHexOfHex(u);
  }

  /** Distinct ids render to distinct strings. */
  lemma ToStringInjective(u: Uuid, v: Uuid)
    requires ToString(u) == ToString(v)
    ensures u == v
  {
    ParseToString(u);
    ParseToString(v);
  }
}
