/** The few operations on Python `str` values that the modelled code relies on:
    `find`, `rfind`, `strip`, `split('\n')`, `startswith`, `str(int)` and
    `int(str)` on plain digit strings. */
module Text {
  import opened Wrappers

  // ---------------------------------------------------------------------------
  // find / rfind

  /** `s.find(c)`: the index of the first `c` in `s`, or -1. */
  function IndexOf(s: string, c: char): (r: int)
    ensures -1 <= r
    ensures r == -1 <==> c !in s
    ensures 0 <= r ==> r < |s| && s[r] == c && c !in s[..r]
  {
    if |s| == 0 then -1
    else if s[0] == c then 0
    else
      var k := IndexOf(s[1..], c);
      assert s[1..][..k + 1] == s[1..k + 2] by {
        assert k >= 0 ==> s[..k + 2] == [s[0]] + s[1..][..k + 1];
      }
      if k < 0 then -1 else k + 1
  }

  /** `s.rfind(c)`: the index of the last `c` in `s`, or -1. */
  function LastIndexOf(s: string, c: char): (r: int)
    ensures -1 <= r
    ensures r == -1 <==> c !in s
    ensures 0 <= r ==> r < |s| && s[r] == c && c !in s[r + 1..]
  {
    if |s| == 0 then -1
    else if s[|s| - 1] == c then |s| - 1
    else
      var init := s[..|s| - 1];
      var k := LastIndexOf(init, c);
      assert s == init + [s[|s| - 1]];
      assert k >= 0 ==> s[k + 1..] == init[k + 1..] + [s[|s| - 1]];
      k
  }

  // ---------------------------------------------------------------------------
  // strip

  /** Python's `str.isspace` on one character. */
  predicate IsWhitespace(c: char) {
    || c == ' ' || c == '\t' || c == '\n' || c == '\r'
    || c == '\U{000B}' || c == '\U{000C}'
    || ('\U{001C}' <= c <= '\U{001F}')
    || c == '\U{0085}' || c == '\U{00A0}' || c == '\U{1680}'
    || ('\U{2000}' <= c <= '\U{200A}')
    || c == '\U{2028}' || c == '\U{2029}' || c == '\U{202F}'
    || c == '\U{205F}' || c == '\U{3000}'
  }

  /** True when `s` is empty or made of whitespace only. */
  predicate IsBlank(s: string) {
    forall i :: 0 <= i < |s| ==> IsWhitespace(s[i])
  }

  /** `s.rstrip()`: the prefix of `s` left after dropping trailing whitespace. */
  function StripRight(s: string): (r: string)
    ensures |r| <= |s| && r == s[..|r|]
    ensures IsBlank(s[|r|..])
    ensures r == [] || !IsWhitespace(r[|r| - 1])
  {
    if |s| > 0 && IsWhitespace(s[|s| - 1]) then
      var t := StripRight(s[..|s| - 1]);
      assert s[|t|..] == s[..|s| - 1][|t|..] + [s[|s| - 1]];
      t
    else s
  }

  /** `s.strip()`: the middle of `s` left after dropping leading and trailing
      whitespace. */
  function Strip(s: string): (r: string)
    ensures r == [] <==> IsBlank(s)
    ensures r != [] ==> !IsWhitespace(r[0]) && !IsWhitespace(r[|r| - 1])
  {
    if |s| == 0 then s
    else if IsWhitespace(s[0]) then Strip(s[1..])
    else
      var r := StripRight(s);
      assert r != [];
      assert r[0] == s[0];
      r
  }

  // ---------------------------------------------------------------------------
  // split / join

  /** `s.split(sep)` for a one-character separator: the pieces between the
      separators, always at least one. */
  function Split(s: string, sep: char): (r: seq<string>)
    ensures |r| >= 1
    ensures forall i :: 0 <= i < |r| ==> sep !in r[i]
    ensures Join(r, sep) == s
    decreases |s|
  {
    var k := IndexOf(s, sep);
    if k < 0 then [s]
    else
      var rest := Split(s[k + 1..], sep);
      assert s == s[..k] + [sep] + s[k + 1..];
      [s[..k]] + rest
  }

  /** `sep.join(parts)`: the parts with one separator between neighbours. */
  function Join(parts: seq<string>, sep: char): string {
    if |parts| == 0 then []
    else if |parts| == 1 then parts[0]
    else parts[0] + [sep] + Join(parts[1..], sep)
  }

  /** Splitting the joined pieces gives the pieces back, when no piece
      contains the separator. */
  lemma {:induction false} SplitJoin(parts: seq<string>, sep: char)
    requires |parts| >= 1
    requires forall i :: 0 <= i < |parts| ==> sep !in parts[i]
    ensures Split(Join(parts, sep), sep) == parts
    decreases |parts|
  {
    if |parts| == 1 {
      assert IndexOf(parts[0], sep) == -1;
    } else {
      var s := Join(parts, sep);
      var t := Join(parts[1..], sep);
      assert s == parts[0] + [sep] + t;
      assert sep !in parts[0];
      assert s[..|parts[0]|] == parts[0];
      assert s[|parts[0]|] == sep;
      var k := IndexOf(s, sep);
      assert k == |parts[0]| by {
        assert sep !in s[..|parts[0]|];
      }
      assert s[k + 1..] == t;
      SplitJoin(parts[1..], sep);
    }
  }

  // ---------------------------------------------------------------------------
  // str(int) and int(str)

  const Digits: string := "0123456789"

  predicate IsDigit(c: char) {
    '0' <= c <= '9'
  }

  /** `str(n)` for a non-negative `n`: its decimal digits, no leading zero. */
  function NatToString(n: nat): (r: string)
    ensures |r| >= 1 && forall i :: 0 <= i < |r| ==> IsDigit(r[i])
    ensures r[0] == '0' ==> n == 0
    decreases n
  {
    if n < 10 then [Digits[n]]
    else NatToString(n / 10) + [Digits[n % 10]]
  }

  /** `str(n)` for any integer: a minus sign before the magnitude's digits when negative. */
  function IntToString(n: int): string {
    if n < 0 then "-" + NatToString(-n) else NatToString(n)
  }

  /** The value of a digit character. */
  function DigitValue(c: char): nat
    requires IsDigit(c)
  {
    (c as int - '0' as int) as nat
  }

  /** The value of a non-empty digit string read as a decimal numeral. */
  function DigitsValue(s: string): nat
    requires forall i :: 0 <= i < |s| ==> IsDigit(s[i])
  {
    if |s| == 0 then 0
    else DigitsValue(s[..|s| - 1]) * 10 + DigitValue(s[|s| - 1])
  }

  /** `int(s)` on a string of decimal digits; `None` for anything else
      (where Python would raise or accept signs and spaces, which no
      caller in the model produces). */
  function ParseNat(s: string): Option<nat> {
    if |s| > 0 && forall i :: 0 <= i < |s| ==> IsDigit(s[i]) then Some(DigitsValue(s))
    else None
  }

  /** `int(s)` on an optional minus sign followed by decimal digits. */
  function ParseInt(s: string): Option<int> {
    if |s| > 0 && s[0] == '-' then
      match ParseNat(s[1..])
      case Some(n) => Some(-(n as int))
      case None => None
    else
      match ParseNat(s)
      case Some(n) => Some(n)
      case None => None
  }

  /** Reading back the decimal form of `n` gives `n`. */
  lemma {:induction false} NatToStringRoundTrip(n: nat)
    ensures ParseNat(NatToString(n)) == Some(n)
    decreases n
  {
    var s := NatToString(n);
    if n < 10 {
      assert DigitsValue(s) == DigitValue(s[0]);
    } else {
      NatToStringRoundTrip(n / 10);
      var p := NatToString(n / 10);
      assert s[..|s| - 1] == p;
      assert DigitValue(s[|s| - 1]) == n % 10;
    }
  }

  /** Reading back `str(n)` gives `n`, for every integer. */
  lemma IntToStringRoundTrip(n: int)
    ensures ParseInt(IntToString(n)) == Some(n)
  {
    var s := IntToString(n);
    if n < 0 {
      NatToStringRoundTrip(-n);
      assert s[0] == '-' && s[1..] == NatToString(-n);
    } else {
      NatToStringRoundTrip(n);
      assert IsDigit(s[0]);
    }
  }

  /** Digits with no leading zero, except for "0" itself. */
  predicate PlainDigits(s: string) {
    |s| >= 1 && (forall i :: 0 <= i < |s| ==> IsDigit(s[i])) && (s[0] == '0' ==> |s| == 1)
  }

  /** The shape of `str(n)`: plain digits, after a minus sign when negative,
      and never "-0". */
  predicate PlainDecimal(s: string) {
    if |s| > 0 && s[0] == '-' then PlainDigits(s[1..]) && s[1..] != "0" else PlainDigits(s)
  }

  /** `str(n)` always has that shape. */
  lemma IntToStringPlain(n: int)
    ensures PlainDecimal(IntToString(n))
  {
    var s := IntToString(n);
    if n < 0 {
      assert s[0] == '-' && s[1..] == NatToString(-n);
    } else if n == 0 {
      assert s == "0";
    } else {
      assert IsDigit(s[0]);
    }
  }

  /** Only one string of that shape reads back as `n`: `str(n)` itself. */
  lemma PlainDecimalUnique(s: string, n: int)
    requires PlainDecimal(s) && ParseInt(s) == Some(n)
    ensures s == IntToString(n)
  {
    if |s| > 0 && s[0] == '-' {
      var d := s[1..];
      PlainDigitsAreDecimal(d);
      assert n == -(DigitsValue(d) as int);
      assert NatToString(0) == "0";
      assert s == "-" + d;
    } else {
      assert !IsDigit('-');
      PlainDigitsAreDecimal(s);
    }
  }

  /** Plain digits are the decimal form of their own value. */
  lemma {:induction false} PlainDigitsAreDecimal(s: string)
    requires PlainDigits(s)
    ensures s == NatToString(DigitsValue(s))
    decreases |s|
  {
    var last := s[|s| - 1];
    DigitChar(last);
    if |s| > 1 {
      var p := s[..|s| - 1];
      assert p[0] == s[0] != '0';
      PlainDigitsAreDecimal(p);
      var v := DigitsValue(s);
      assert NatToString(0) == "0";
      assert v / 10 == DigitsValue(p) && v % 10 == DigitValue(last);
      assert s == p + [last];
    } else {
      assert DigitsValue(s) == DigitValue(last);
    }
  }

  /** A digit is the entry of `Digits` at its own value. */
  lemma DigitChar(c: char)
    requires IsDigit(c)
    ensures DigitValue(c) < 10 && Digits[DigitValue(c)] == c
  {
  }
}
