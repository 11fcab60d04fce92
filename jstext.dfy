/** The pieces of JavaScript string semantics that the blog loader and the
    heading extractor rely on: the character classes of regular expressions
    (`\s`, `\w`, line terminators), `String.prototype.trim`, ASCII
    lower-casing, and the decimal rendering of a non-negative integer
    (`String(n)`, `${n}`) together with its inverse. */
module JsText {

  /** LineTerminator of ECMAScript: what `.` refuses and what `^`/`$` see
      as a line boundary under the `m` flag. */
  predicate IsLineTerminator(c: char) {
    c == '\n' || c == '\r' || c == '\U{2028}' || c == '\U{2029}'
  }

  /** The class `\s` of ECMAScript regular expressions: WhiteSpace (tab,
      vertical tab, form feed, the byte-order mark and every space
      separator) together with every LineTerminator. `trim` removes exactly
      this set too. */
  predicate IsSpace(c: char) {
    || IsLineTerminator(c)
    || c == '\t' || c == '\U{B}' || c == '\U{C}' || c == ' '
    || c == '\U{A0}' || c == '\U{FEFF}' || c == '\U{1680}'
    || ('\U{2000}' <= c <= '\U{200A}')
    || c == '\U{202F}' || c == '\U{205F}' || c == '\U{3000}'
  }

  predicate IsDigit(c: char) {
    '0' <= c <= '9'
  }

  /** The class `\w` of a regular expression without the `u` flag:
      exactly the ASCII letters, digits and underscore. */
  predicate IsWordChar(c: char) {
    ('a' <= c <= 'z') || ('A' <= c <= 'Z') || IsDigit(c) || c == '_'
  }

  predicate IsUpper(c: char) {
    'A' <= c <= 'Z'
  }

  /** `toLowerCase` on the ASCII range; every other character is kept. */
  function ToLower(c: char): (r: char)
    ensures !IsUpper(r)
    ensures IsUpper(c) ==> r as int == c as int + 32
    ensures !IsUpper(c) ==> r == c
  {
    if IsUpper(c) then (c as int + 32) as char else c
  }

  function Lower(s: string): (r: string)
    ensures |r| == |s|
    ensures forall i :: 0 <= i < |s| ==> r[i] == ToLower(s[i])
  {
    if s == [] then [] else [ToLower(s[0])] + Lower(s[1..])
  }

  /** The length of the longest run of characters satisfying `P` that
      starts at position `p` of `s`. */
  function Run(s: string, p: nat, P: char -> bool): (n: nat)
    requires p <= |s|
    ensures p + n <= |s|
    ensures p + n == |s| || !P(s[p + n])
    decreases |s| - p
  {
    if p == |s| || !P(s[p]) then 0 else 1 + Run(s, p + 1, P)
  }

  /** Every character of the run satisfies `P`. */
  lemma {:induction false} RunSpan(s: string, p: nat, P: char -> bool)
    requires p <= |s|
    ensures forall i :: p <= i < p + Run(s, p, P) ==> P(s[i])
    decreases |s| - p
  {
    if p < |s| && P(s[p]) {
      RunSpan(s, p + 1, P);
    }
  }

  predicate AllSpace(s: string) {
    forall i :: 0 <= i < |s| ==> IsSpace(s[i])
  }

  /** Neither the first nor the last character is whitespace. */
  predicate NoEdgeSpace(s: string) {
    s == [] || (!IsSpace(s[0]) && !IsSpace(s[|s| - 1]))
  }

  /** The input with its leading whitespace removed. */
  function TrimStart(s: string): (r: string)
    ensures |r| <= |s|
    ensures r == [] || !IsSpace(r[0])
  {
    if s != [] && IsSpace(s[0]) then TrimStart(s[1..]) else s
  }

  /** TrimStart keeps a suffix of its input. */
  lemma {:induction false} TrimStartIsSuffix(s: string)
    ensures TrimStart(s) == s[|s| - |TrimStart(s)|..]
    decreases |s|
  {
    if s != [] && IsSpace(s[0]) {
      TrimStartIsSuffix(s[1..]);
      assert s[1..][|s| - 1 - |TrimStart(s)|..] == s[|s| - |TrimStart(s)|..];
    }
  }

  /** The input with its trailing whitespace removed. */
  function TrimEnd(s: string): (r: string)
    ensures |r| <= |s|
    ensures r == [] || !IsSpace(r[|r| - 1])
  {
    if s != [] && IsSpace(s[|s| - 1]) then TrimEnd(s[..|s| - 1]) else s
  }

  /** TrimEnd keeps a prefix of its input. */
  lemma {:induction false} TrimEndIsPrefix(s: string)
    ensures TrimEnd(s) == s[..|TrimEnd(s)|]
    decreases |s|
  {
    if s != [] && IsSpace(s[|s| - 1]) {
      TrimEndIsPrefix(s[..|s| - 1]);
      assert s[..|s| - 1][..|TrimEnd(s)|] == s[..|TrimEnd(s)|];
    }
  }

  /** `String.prototype.trim`: the input with its leading and trailing
      whitespace removed. */
  function Trim(s: string): (r: string)
    ensures |r| <= |s|
    ensures NoEdgeSpace(r)
  {
    var t := TrimStart(s);
    var r := TrimEnd(t);
    TrimEndIsPrefix(t);
    assert r != [] ==> r[0] == t[0];
    r
  }

  /** What TrimStart removes is whitespace. */
  lemma {:induction false} TrimStartRemovesSpace(s: string)
    ensures AllSpace(s[..|s| - |TrimStart(s)|])
    decreases |s|
  {
    if s != [] && IsSpace(s[0]) {
      var r := TrimStart(s[1..]);
      TrimStartRemovesSpace(s[1..]);
      TrimStartIsSuffix(s[1..]);
      assert s[..|s| - |r|] == [s[0]] + s[1..][..|s| - 1 - |r|];
    }
  }

  /** What TrimEnd removes is whitespace. */
  lemma {:induction false} TrimEndRemovesSpace(s: string)
    ensures AllSpace(s[|TrimEnd(s)|..])
    decreases |s|
  {
    if s != [] && IsSpace(s[|s| - 1]) {
      var r := TrimEnd(s[..|s| - 1]);
      TrimEndRemovesSpace(s[..|s| - 1]);
      assert s[|r|..] == s[..|s| - 1][|r|..] + [s[|s| - 1]];
    }
  }

  /** What trim removes is whitespace at the two ends, and nothing else:
      the result is the part of the input between a whitespace prefix and a
      whitespace suffix, starting at `a`. */
  lemma TrimIsInfix(s: string) returns (a: nat)
    ensures a + |Trim(s)| <= |s| && Trim(s) == s[a..a + |Trim(s)|]
    ensures AllSpace(s[..a]) && AllSpace(s[a + |Trim(s)|..])
  {
    var t := TrimStart(s);
    a := |s| - |t|;
    var r := TrimEnd(t);
    TrimStartRemovesSpace(s);
    TrimEndRemovesSpace(t);
    TrimStartIsSuffix(s);
    TrimEndIsPrefix(t);
    assert r == s[a..a + |r|];
    assert s[a + |r|..] == t[|r|..];
  }

  /** The maximal run is the only run that is followed by a character not
      in it (or by the end). */
  lemma {:induction false} RunUnique(s: string, p: nat, P: char -> bool, n: nat)
    requires p + n <= |s|
    requires forall i :: p <= i < p + n ==> P(s[i])
    requires p + n == |s| || !P(s[p + n])
    ensures Run(s, p, P) == n
    decreases n
  {
    if n > 0 {
      RunUnique(s, p + 1, P, n - 1);
    }
  }

  /** Whitespace in front of a string makes no difference to its trim. */
  lemma {:induction false} TrimLeadingSpace(a: string, b: string)
    requires AllSpace(a)
    ensures TrimStart(a + b) == TrimStart(b)
    ensures Trim(a + b) == Trim(b)
    decreases |a|
  {
    if a != [] {
      assert (a + b)[0] == a[0];
      assert (a + b)[1..] == a[1..] + b;
      TrimLeadingSpace(a[1..], b);
    } else {
      assert a + b == b;
    }
  }

  /** Whitespace at `[i, j)` makes no difference to the trim of `[i, k)`. */
  lemma TrimAfterSpace(s: string, i: nat, j: nat, k: nat)
    requires i <= j <= k <= |s|
    requires AllSpace(s[i..j])
    ensures Trim(s[i..k]) == Trim(s[j..k])
  {
    assert s[i..k] == s[i..j] + s[j..k];
    TrimLeadingSpace(s[i..j], s[j..k]);
  }

  /** A string of decimal digits. */
  predicate AllDigits(s: string) {
    forall i :: 0 <= i < |s| ==> IsDigit(s[i])
  }

  /** A decimal numeral as JavaScript prints one: at least one digit, and no
      leading zero unless the numeral is "0". */
  predicate Canonical(s: string) {
    |s| >= 1 && AllDigits(s) && (s[0] == '0' ==> |s| == 1)
  }

  function DigitChar(d: nat): (c: char)
    requires d < 10
    ensures IsDigit(c) && c as int - '0' as int == d
  {
    ('0' as int + d) as char
  }

  function DigitValue(c: char): (d: nat)
    requires IsDigit(c)
    ensures d < 10 && DigitChar(d) == c
  {
    c as int - '0' as int
  }

  /** `String(n)` for a non-negative integer. */
  function DecimalString(n: nat): (r: string)
    ensures Canonical(r)
    decreases n
  {
    if n < 10 then [DigitChar(n)] else DecimalString(n / 10) + [DigitChar(n % 10)]
  }

  /** The value of a string of decimal digits (the digit loop of
      `parseInt`). */
  function DigitsValue(s: string): nat
    requires AllDigits(s)
  {
    if s == [] then 0 else DigitsValue(s[..|s| - 1]) * 10 + DigitValue(s[|s| - 1])
  }

  /** Reading back a printed number gives the number. */
  lemma {:induction false} DecimalRoundTrip(n: nat)
    ensures DigitsValue(DecimalString(n)) == n
    decreases n
  {
    var r := DecimalString(n);
    if n >= 10 {
      DecimalRoundTrip(n / 10);
      assert r[..|r| - 1] == DecimalString(n / 10);
    }
  }

  /** Printing is injective, so distinct counters give distinct strings. */
  lemma DecimalInjective(a: nat, b: nat)
    requires DecimalString(a) == DecimalString(b)
    ensures a == b
  {
    DecimalRoundTrip(a);
    DecimalRoundTrip(b);
  }

  lemma {:induction false} LeadingNonZero(s: string)
    requires |s| >= 1 && AllDigits(s) && s[0] != '0'
    ensures DigitsValue(s) >= 1
    decreases |s|
  {
    if |s| > 1 {
      LeadingNonZero(s[..|s| - 1]);
    }
  }

  /** Printing the value of a canonical numeral gives the numeral back. */
  lemma {:induction false} CanonicalRoundTrip(s: string)
    requires Canonical(s)
    ensures DecimalString(DigitsValue(s)) == s
    decreases |s|
  {
    if |s| > 1 {
      var init := s[..|s| - 1];
      LeadingNonZero(init);
      CanonicalRoundTrip(init);
      var v := DigitsValue(s);
      var d := DigitValue(s[|s| - 1]);
      assert v == DigitsValue(init) * 10 + d;
      assert v / 10 == DigitsValue(init) && v % 10 == d;
      assert s == init + [s[|s| - 1]];
    }
  }

  /** The elements of `[x] + t`: `x`, then those of `t`. */
  lemma ConsIndex<T>(x: T, t: seq<T>)
    ensures ([x] + t)[0] == x
    ensures forall k :: 1 <= k < |t| + 1 ==> ([x] + t)[k] == t[k - 1]
  {
  }
}
