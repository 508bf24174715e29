/**
 * The few ECMAScript string built-ins the server code relies on:
 * String.prototype.trim, startsWith, indexOf, and Number.parseInt
 * (radix left undefined).  Strings are sequences of characters.
 */
module JsString {
  import opened Wrappers

  /** ECMAScript WhiteSpace and LineTerminator code points: the class that
      `trim` strips and that the regular-expression escape `\s` matches. */
  predicate IsWhitespace(c: char) {
    || c == '\t' || c == '\n' || c == '\U{000B}' || c == '\U{000C}' || c == '\r' || c == ' '
    || c == '\U{00A0}' || c == '\U{1680}' || ('\U{2000}' <= c <= '\U{200A}')
    || c == '\U{2028}' || c == '\U{2029}' || c == '\U{202F}' || c == '\U{205F}'
    || c == '\U{3000}' || c == '\U{FEFF}'
  }

  predicate AllWhitespace(s: string) {
    forall k :: 0 <= k < |s| ==> IsWhitespace(s[k])
  }

  /** Drops leading whitespace: the result is a suffix of `s`, everything cut
      off is whitespace, and the result does not start with whitespace. */
  function TrimStart(s: string): (r: string)
    ensures |r| <= |s| && r == s[|s| - |r|..]
    ensures AllWhitespace(s[..|s| - |r|])
    ensures r == [] || !IsWhitespace(r[0])
  {
    if s != [] && IsWhitespace(s[0]) then TrimStart(s[1..]) else s
  }

  /** Drops trailing whitespace: the result is a prefix of `s`, everything cut
      off is whitespace, and the result does not end with whitespace. */
  function TrimEnd(s: string): (r: string)
    ensures |r| <= |s| && r == s[..|r|]
    ensures AllWhitespace(s[|r|..])
    ensures r == [] || !IsWhitespace(r[|r| - 1])
  {
    if s != [] && IsWhitespace(s[|s| - 1]) then TrimEnd(s[..|s| - 1]) else s
  }

  /** String.prototype.trim. */
  function Trim(s: string): (r: string)
    ensures |r| <= |s|
    ensures r == [] || (!IsWhitespace(r[0]) && !IsWhitespace(r[|r| - 1]))
  {
    TrimEnd(TrimStart(s))
  }

  /** The trimmed string is empty exactly when the input is all whitespace. */
  lemma TrimEmptyIffBlank(s: string)
    ensures Trim(s) == [] <==> AllWhitespace(s)
  {
    var t := TrimStart(s);
    if Trim(s) == [] {
      assert AllWhitespace(t[0..]);
      assert s == s[..|s| - |t|] + t;
    }
  }

  /** Trimming twice is trimming once. */
  lemma TrimIdempotent(s: string)
    ensures Trim(Trim(s)) == Trim(s)
  {
    var r := Trim(s);
    if r != [] {
      assert TrimStart(r) == r;
      assert TrimEnd(r) == r;
    }
  }

  predicate StartsWith(s: string, prefix: string) {
    |prefix| <= |s| && s[..|prefix|] == prefix
  }

  /** Index of the first occurrence of `c`, or None when `c` does not occur. */
  function IndexOf(s: string, c: char): (r: Option<nat>)
    ensures r.None? ==> c !in s
    ensures r.Some? ==> r.value < |s| && s[r.value] == c && c !in s[..r.value]
  {
    if s == [] then None
    else if s[0] == c then Some(0)
    else match IndexOf(s[1..], c)
      case None => None
      case Some(i) => assert s[..i + 1] == [s[0]] + s[1..][..i]; Some(i + 1)
  }

  /** `c` is first found right after a prefix that does not contain it. */
  lemma IndexOfFirst(a: string, c: char, b: string)
    requires c !in a
    ensures IndexOf(a + [c] + b, c) == Some(|a|)
  {
    var s := a + [c] + b;
    assert s[|a|] == c && s[..|a|] == a;
  }

  // ---------------------------------------------------------------------
  // Number.parseInt(s) with the radix left undefined

  function DigitValue(c: char): (v: nat)
    ensures v < 36
  {
    if '0' <= c <= '9' then (c - '0') as nat
    else if 'a' <= c <= 'z' then (c - 'a') as nat + 10
    else if 'A' <= c <= 'Z' then (c - 'A') as nat + 10
    else 35
  }

  predicate IsDigitIn(c: char, radix: nat) {
    ('0' <= c <= '9' || 'a' <= c <= 'z' || 'A' <= c <= 'Z') && DigitValue(c) < radix
  }

  /** The longest prefix of `s` made of digits of the radix. */
  function DigitRun(s: string, radix: nat): (r: string)
    ensures |r| <= |s| && r == s[..|r|]
    ensures forall k :: 0 <= k < |r| ==> IsDigitIn(r[k], radix)
    ensures |r| < |s| ==> !IsDigitIn(s[|r|], radix)
  {
    if s != [] && IsDigitIn(s[0], radix) then [s[0]] + DigitRun(s[1..], radix) else []
  }

  /** Positional value of a digit string, most significant digit first. */
  function DigitsValue(d: string, radix: nat): nat {
    if d == [] then 0 else DigitsValue(d[..|d| - 1], radix) * radix + DigitValue(d[|d| - 1])
  }

  /** Number.parseInt(s): skip leading whitespace, read an optional sign, a
      `0x`/`0X` prefix switches to radix 16, then the longest run of digits;
      None stands for NaN (no digit at all). */
  function ParseInt(s: string): Option<int> {
    var t := TrimStart(s);
    var negative := t != [] && t[0] == '-';
    var u := if t != [] && (t[0] == '-' || t[0] == '+') then t[1..] else t;
    var hex := |u| >= 2 && u[0] == '0' && (u[1] == 'x' || u[1] == 'X');
    var radix := if hex then 16 else 10;
    var body := if hex then u[2..] else u;
    var digits := DigitRun(body, radix);
    if digits == [] then None
    else
      var magnitude: int := DigitsValue(digits, radix);
      Some(if negative then -magnitude else magnitude)
  }

  /** Decimal rendering of a natural number, as String(n) gives it. */
  function DecimalString(n: nat): (r: string)
    ensures r != []
    ensures forall k :: 0 <= k < |r| ==> '0' <= r[k] <= '9'
    decreases n
  {
    if n < 10 then [('0' as int + n) as char]
    else DecimalString(n / 10) + [('0' as int + n % 10) as char]
  }

  lemma {:induction false} DecimalDigitsValue(n: nat)
    ensures DigitsValue(DecimalString(n), 10) == n
    decreases n
  {
    var d := DecimalString(n);
    if n >= 10 {
      assert d[..|d| - 1] == DecimalString(n / 10);
      DecimalDigitsValue(n / 10);
    }
  }

  lemma {:induction false} DigitRunOfDigits(d: string)
    requires forall k :: 0 <= k < |d| ==> '0' <= d[k] <= '9'
    ensures DigitRun(d, 10) == d
  {
    if d != [] {
      assert IsDigitIn(d[0], 10);
      DigitRunOfDigits(d[1..]);
    }
  }

  /** parseInt reads back every decimal numeral. */
  lemma ParseIntDecimal(n: nat)
    ensures ParseInt(DecimalString(n)) == Some(n)
  {
    ParseIntDigits(DecimalString(n));
    DecimalDigitsValue(n);
  }

  /** parseInt of a non-empty run of decimal digits is their value. */
  lemma ParseIntDigits(d: string)
    requires d != [] && forall k :: 0 <= k < |d| ==> '0' <= d[k] <= '9'
    ensures ParseInt(d) == Some(DigitsValue(d, 10))
  {
    DigitRunOfDigits(d);
    DigitIsNotSpace(d);
    ParseIntOfRun(d);
  }

  lemma DigitIsNotSpace(d: string)
    requires d != [] && '0' <= d[0] <= '9'
    ensures TrimStart(d) == d
  {
    assert !IsWhitespace(d[0]);
  }

  lemma ParseIntOfRun(d: string)
    requires d != [] && forall k :: 0 <= k < |d| ==> '0' <= d[k] <= '9'
    requires TrimStart(d) == d && DigitRun(d, 10) == d
    ensures ParseInt(d) == Some(DigitsValue(d, 10))
  {
    var hex := |d| >= 2 && d[0] == '0' && (d[1] == 'x' || d[1] == 'X');
    assert !hex by {
      if |d| >= 2 {
        assert '0' <= d[1] <= '9';
      }
    }
  }

  /** parseInt of the empty string, or of text with no leading digit, is NaN. */
  lemma ParseIntNoDigits(s: string)
    requires s == [] || (!IsWhitespace(s[0]) && s[0] != '+' && s[0] != '-' && !IsDigitIn(s[0], 10))
    ensures ParseInt(s) == None
  {
  }
}
