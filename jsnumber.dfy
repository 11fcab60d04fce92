/** The two number conversions the blog loader performs on a post's id:
    `parseInt` of the part of the file name before the first `.`, and
    `Number.prototype.toString` when a post is looked up by id. */
module JsNumber {
  import opened Wrappers
  import opened JsText

  /** A JavaScript number as the loader can produce one: `None` is NaN,
      `Some(n)` the integer `n` (`-0` and `0` are not told apart: they
      compare equal and both print as "0"). */
  type Number = Option<int>

  predicate IsHexDigit(c: char) {
    IsDigit(c) || ('a' <= c <= 'f') || ('A' <= c <= 'F')
  }

  function HexDigitValue(c: char): (d: nat)
    requires IsHexDigit(c)
    ensures d < 16
    ensures IsDigit(c) ==> d == DigitValue(c)
  {
    if IsDigit(c) then DigitValue(c)
    else if 'a' <= c <= 'f' then c as int - 'a' as int + 10
    else c as int - 'A' as int + 10
  }

  predicate AllHexDigits(s: string) {
    forall i :: 0 <= i < |s| ==> IsHexDigit(s[i])
  }

  /** The value of a string of hexadecimal digits. */
  function HexDigitsValue(s: string): nat
    requires AllHexDigits(s)
  {
    if s == [] then 0 else HexDigitsValue(s[..|s| - 1]) * 16 + HexDigitValue(s[|s| - 1])
  }

  function Signed(negative: bool, n: nat): int {
    if negative then -(n as int) else n
  }

  /** The string `parseInt(s)` (no radix) reads after skipping leading
      whitespace: `(negative, rest)` for an optional sign. */
  function SkipSign(s: string): (r: (bool, string))
    ensures |r.1| <= |s|
  {
    var t := s[Run(s, 0, IsSpace)..];
    if t != [] && (t[0] == '-' || t[0] == '+') then (t[0] == '-', t[1..]) else (false, t)
  }

  predicate HasHexPrefix(u: string) {
    |u| >= 2 && u[0] == '0' && (u[1] == 'x' || u[1] == 'X')
  }

  /** `parseInt(s)` without a radix: skip leading whitespace, take an
      optional sign, read radix 16 after a `0x`/`0X` prefix and radix 10
      otherwise, and stop at the first character that is not a digit of the
      radix; NaN when no digit was read. */
  function ParseInt(s: string): Number {
    var (negative, u) := SkipSign(s);
    if HasHexPrefix(u) then
      var h := u[2..];
      var n := Run(h, 0, IsHexDigit);
      RunSpan(h, 0, IsHexDigit);
      if n == 0 then None else Some(Signed(negative, HexDigitsValue(h[..n])))
    else
      var n := Run(u, 0, IsDigit);
      RunSpan(u, 0, IsDigit);
      if n == 0 then None else Some(Signed(negative, DigitsValue(u[..n])))
  }

  /** `String(x)` for a number the loader can produce: "NaN", or the decimal
      numeral with a `-` for a negative value (JavaScript's exponent form
      for values of 1e21 and above is not modelled). */
  function Show(x: Number): (r: string)
    ensures x.Some? && x.value >= 0 ==> Canonical(r)
    ensures x.Some? && x.value < 0 ==> |r| >= 2 && r[0] == '-' && Canonical(r[1..])
  {
    match x
    case None => "NaN"
    case Some(n) => if n < 0 then "-" + DecimalString(-n) else DecimalString(n)
  }

  /** `parseInt` reads a run of decimal digits, leading zeros included, up
      to the first character that is not a digit, `parseInt("12abc") == 12`
      and `parseInt("007abc") == 7`, unless the string starts with `0x` or
      `0X`. */
  lemma ParseLeadingDigits(d: string, rest: string)
    requires |d| >= 1 && AllDigits(d)
    requires rest == [] || !IsDigit(rest[0])
    requires !HasHexPrefix(d + rest)
    ensures ParseInt(d + rest) == Some(DigitsValue(d))
  {
    var s := d + rest;
    assert s[0] == d[0];
    ParseDecimal(s);
    assert forall i :: 0 <= i < |d| ==> s[i] == d[i];
    assert rest != [] ==> s[|d|] == rest[0];
    RunUnique(s, 0, IsDigit, |d|);
    assert s[..|d|] == d;
  }

  /** A string that starts with a decimal digit and not with `0x` is read
      in radix 10, from its first character. */
  lemma ParseDecimal(s: string)
    requires s != [] && IsDigit(s[0]) && !HasHexPrefix(s)
    ensures AllDigits(s[..Run(s, 0, IsDigit)])
    ensures ParseInt(s) == Some(DigitsValue(s[..Run(s, 0, IsDigit)]))
  {
    RunSpan(s, 0, IsDigit);
    assert Run(s, 0, IsSpace) == 0;
    assert SkipSign(s) == (false, s);
  }

  /** Printing a numeral with a minus sign and reading it back. */
  lemma ParseNegative(d: string)
    requires Canonical(d) && d[0] != '0'
    ensures ParseInt("-" + d) == Some(-(DigitsValue(d) as int))
  {
    var s := "-" + d;
    assert !IsSpace(s[0]);
    assert Run(s, 0, IsSpace) == 0;
    assert s[1..] == d;
    assert SkipSign(s) == (true, d);
    RunUnique(d, 0, IsDigit, |d|);
    assert d[..|d|] == d;
  }

  /** `parseInt(String(x)) == x`: printing loses nothing, so two numbers
      that print alike are equal. */
  lemma ParseShowRoundTrip(x: Number)
    ensures ParseInt(Show(x)) == x
  {
    match x
    case None =>
      var s := Show(x);
      assert s[0] == 'N' && Run(s, 0, IsSpace) == 0;
      assert SkipSign(s) == (false, s);
    case Some(n) =>
      var m: nat := if n < 0 then -n else n;
      DecimalRoundTrip(m);
      if n < 0 {
        LeadingNonZero(DecimalString(m));
        ParseNegative(DecimalString(m));
      } else {
        assert DecimalString(m) + [] == DecimalString(m);
        ParseLeadingDigits(DecimalString(m), []);
      }
  }

  lemma ShowInjective(x: Number, y: Number)
    requires Show(x) == Show(y)
    ensures x == y
  {
    ParseShowRoundTrip(x);
    ParseShowRoundTrip(y);
  }

  /** A canonical decimal numeral is what its own value prints as. */
  lemma ShowOfCanonical(key: string)
    requires Canonical(key)
    ensures Show(Some(DigitsValue(key))) == key
  {
    CanonicalRoundTrip(key);
  }
}
