/** The heading regular expression of `extractHeadings`,
    `/^(#{1,6})\s+(.+)$/gm`, with the meaning ECMAScript gives it on the
    whole content string (multiline flag: `^` and `$` also match next to a
    line terminator; `.` matches anything but a line terminator; `\s` also
    matches line terminators), and the scan that repeated calls of `exec` on
    one global regular expression perform. */
module HeadingPattern {
  import opened Wrappers
  import opened JsText

  /** What one successful `exec` yields, as positions in the content: the
      position of the match (`match.index`) and the lengths of its three
      parts, the hashes (capture group 1), the whitespace between and the
      text (capture group 2). */
  datatype Match = Match(index: nat, hashCount: nat, gapLength: nat, bodyLength: nat) {
    /** Where the second group starts. */
    function BodyStart(): nat {
      index + hashCount + gapLength
    }

    /** Where the match ends: the `lastIndex` the next `exec` starts from. */
    function End(): nat {
      BodyStart() + bodyLength
    }

    /** `match[1]`. */
    function Hashes(s: string): (r: string)
      requires End() <= |s|
      ensures |r| == hashCount
    {
      s[index..index + hashCount]
    }

    /** `match[2]`. */
    function Body(s: string): (r: string)
      requires End() <= |s|
      ensures |r| == bodyLength
    {
      s[BodyStart()..End()]
    }
  }

  predicate IsHash(c: char) {
    c == '#'
  }

  predicate IsNotTerminator(c: char) {
    !IsLineTerminator(c)
  }

  /** `^` under the multiline flag. */
  predicate AtLineStart(s: string, p: nat)
    requires p <= |s|
  {
    p == 0 || IsLineTerminator(s[p - 1])
  }

  /** The pattern matches at `p` when `#{1,6}` takes `k` characters, `\s+`
      takes `j` and `.+` takes `m`, and `$` then holds (multiline: end of
      input or a line terminator next). */
  ghost predicate MatchesWith(s: string, p: nat, k: nat, j: nat, m: nat) {
    && p + k + j + m <= |s|
    && AtLineStart(s, p)
    && 1 <= k <= 6 && j >= 1 && m >= 1
    && (forall i :: p <= i < p + k ==> s[i] == '#')
    && (forall i :: p + k <= i < p + k + j ==> IsSpace(s[i]))
    && (forall i :: p + k + j <= i < p + k + j + m ==> !IsLineTerminator(s[i]))
    && (p + k + j + m == |s| || IsLineTerminator(s[p + k + j + m]))
  }

  /** The last position in `[lo, hi)` that does not hold a line terminator. */
  function LastNonTerminator(s: string, lo: nat, hi: nat): (r: Option<nat>)
    requires lo <= hi <= |s|
    ensures r.Some? ==> lo <= r.value < hi && !IsLineTerminator(s[r.value])
    ensures r.Some? ==> forall i :: r.value < i < hi ==> IsLineTerminator(s[i])
    ensures r.None? ==> forall i :: lo <= i < hi ==> IsLineTerminator(s[i])
    decreases hi - lo
  {
    if lo == hi then None
    else if !IsLineTerminator(s[hi - 1]) then Some(hi - 1)
    else LastNonTerminator(s, lo, hi - 1)
  }

  /** The match a backtracking engine finds when it tries the pattern at
      position `p` and nowhere else. The greedy quantifiers are tried
      longest first, so the result is the match whose lengths `(k, j, m)`
      are lexicographically largest (see MatchAtPreferred). When the
      whitespace after the hashes runs to the end of the input, `\s+` gives
      back characters until `.+` can take one that is not a line
      terminator. */
  function MatchAt(s: string, p: nat): (r: Option<Match>)
    requires p <= |s|
    ensures r.Some? ==> r.value.index == p && p < r.value.End() <= |s|
  {
    if !AtLineStart(s, p) then None
    else
      var k := Run(s, p, IsHash);
      if k == 0 || k > 6 then None
      else
        var q := p + k;
        var w := Run(s, q, IsSpace);
        if w == 0 then None
        else if q + w < |s| then Some(Match(p, k, w, Run(s, q + w, IsNotTerminator)))
        else
          match LastNonTerminator(s, q + 1, q + w)
          case None => None
          case Some(b) => Some(Match(p, k, b - q, 1))
  }

  /** Whatever MatchAt returns is a match of the pattern. */
  lemma MatchAtSound(s: string, p: nat)
    requires p <= |s| && MatchAt(s, p).Some?
    ensures MatchesWith(s, p, MatchAt(s, p).value.hashCount, MatchAt(s, p).value.gapLength, MatchAt(s, p).value.bodyLength)
  {
    var k := Run(s, p, IsHash);
    var q := p + k;
    var w := Run(s, q, IsSpace);
    RunSpan(s, p, IsHash);
    RunSpan(s, q, IsSpace);
    if q + w < |s| {
      TextAfterGap(s, p, k, w);
    } else {
      GapToEnd(s, p, k, w);
    }
  }

  /** MatchAt's first case: text follows the whitespace run, and `.+` takes
      the rest of the line. */
  lemma TextAfterGap(s: string, p: nat, k: nat, w: nat)
    requires p + k + w < |s| && AtLineStart(s, p) && 1 <= k <= 6 && w >= 1
    requires forall i :: p <= i < p + k ==> s[i] == '#'
    requires forall i :: p + k <= i < p + k + w ==> IsSpace(s[i])
    requires !IsSpace(s[p + k + w])
    ensures MatchesWith(s, p, k, w, Run(s, p + k + w, IsNotTerminator))
  {
    RunSpan(s, p + k + w, IsNotTerminator);
    assert !IsLineTerminator(s[p + k + w]);
  }

  /** MatchAt's second case: the whitespace runs to the end of the input,
      and `\s+` gives back up to the last character that is not a line
      terminator. */
  lemma GapToEnd(s: string, p: nat, k: nat, w: nat)
    requires p + k + w == |s| && AtLineStart(s, p) && 1 <= k <= 6 && w >= 1
    requires forall i :: p <= i < p + k ==> s[i] == '#'
    requires forall i :: p + k <= i < p + k + w ==> IsSpace(s[i])
    requires LastNonTerminator(s, p + k + 1, p + k + w).Some?
    ensures var b := LastNonTerminator(s, p + k + 1, p + k + w).value;
            MatchesWith(s, p, k, b - (p + k), 1)
  {
    var b := LastNonTerminator(s, p + k + 1, p + k + w).value;
    assert b + 1 == |s| || IsLineTerminator(s[b + 1]);
  }

  /** Every match of the pattern at `p` is one that MatchAt's answer is
      preferred to: the hash count is forced, the whitespace run is at most
      as long, and with an equally long whitespace run the body is at most
      as long. So MatchAt(s, p) is None exactly when the pattern cannot
      match at `p`. */
  lemma MatchAtPreferred(s: string, p: nat, k: nat, j: nat, m: nat)
    requires p <= |s| && MatchesWith(s, p, k, j, m)
    ensures MatchAt(s, p).Some?
    ensures k == MatchAt(s, p).value.hashCount
    ensures j <= MatchAt(s, p).value.gapLength
    ensures j == MatchAt(s, p).value.gapLength ==> m <= MatchAt(s, p).value.bodyLength
  {
    var h := Run(s, p, IsHash);
    RunSpan(s, p, IsHash);
    assert IsSpace(s[p + k]) && !IsHash(s[p + k]);
    assert k == h;
    var q := p + k;
    var w := Run(s, q, IsSpace);
    assert j <= w;
    if q + w >= |s| {
      assert !IsLineTerminator(s[q + j]);
      var lb := LastNonTerminator(s, q + 1, q + w);
      assert lb.Some?;
      assert lb.value + 1 == |s| || IsLineTerminator(s[lb.value + 1]);
    }
  }

  /** No heading starts with seven or more `#`: `#{1,6}` can stop before the
      seventh, but then `\s+` sees a `#`. */
  lemma SevenHashesNeverMatch(s: string, p: nat)
    requires p + 7 <= |s|
    requires forall i :: p <= i < p + 7 ==> s[i] == '#'
    ensures MatchAt(s, p).None?
  {
    if MatchAt(s, p).Some? {
      MatchAtSound(s, p);
    }
  }

  /** Hashes followed directly by a character that is neither `#` nor
      whitespace (or by nothing) never start a heading. */
  lemma NoSpaceAfterHashesNeverMatch(s: string, p: nat)
    requires p <= |s|
    requires var h := Run(s, p, IsHash); p + h == |s| || !IsSpace(s[p + h])
    ensures MatchAt(s, p).None?
  {
  }

  /** Where the line holding `p` ends: the next line terminator, or the end
      of the input. */
  function LineEnd(s: string, p: nat): (e: nat)
    requires p <= |s|
    ensures p <= e <= |s| && (e == |s| || IsLineTerminator(s[e]))
    ensures forall i :: p <= i < e ==> !IsLineTerminator(s[i])
  {
    RunSpan(s, p, IsNotTerminator);
    p + Run(s, p, IsNotTerminator)
  }

  /** How a line made of one to six `#`, whitespace and then some text (at
      `c`) splits: the whitespace run after the hashes takes `w` characters
      and the rest of the line `n`, and these lengths fit the pattern. */
  lemma LineShape(s: string, p: nat, h: nat, c: nat) returns (w: nat, n: nat)
    requires p <= |s| && AtLineStart(s, p)
    requires 1 <= h <= 6 && p + h < c < LineEnd(s, p)
    requires forall i :: p <= i < p + h ==> s[i] == '#'
    requires IsSpace(s[p + h]) && !IsSpace(s[c])
    ensures p + h + w + n == LineEnd(s, p)
    ensures w == Run(s, p + h, IsSpace)
    ensures AllSpace(s[p + h..p + h + w])
    ensures MatchesWith(s, p, h, w, n)
  {
    var e := LineEnd(s, p);
    var q := p + h;
    w := Run(s, q, IsSpace);
    RunSpan(s, q, IsSpace);
    assert q + w <= c;
    n := e - (q + w);
    assert !IsSpace(s[q + w]) && !IsLineTerminator(s[q + w]);
  }

  /** The match on such a line is all of the line, with the whole
      whitespace run after the hashes as its gap. */
  lemma LineMatch(s: string, p: nat, h: nat, w: nat, n: nat)
    requires p <= |s| && MatchesWith(s, p, h, w, n)
    requires w == Run(s, p + h, IsSpace)
    requires p + h + w + n == LineEnd(s, p)
    ensures MatchAt(s, p) == Some(Match(p, h, w, n))
  {
    MatchAtPreferred(s, p, h, w, n);
    MatchAtSound(s, p);
  }

  /** The match on a heading line, as lengths of its three parts. */
  lemma LineParts(s: string, p: nat, h: nat, c: nat) returns (w: nat, n: nat)
    requires p <= |s| && AtLineStart(s, p)
    requires 1 <= h <= 6 && p + h < c < LineEnd(s, p)
    requires forall i :: p <= i < p + h ==> s[i] == '#'
    requires IsSpace(s[p + h]) && !IsSpace(s[c])
    ensures p + h + w + n == LineEnd(s, p)
    ensures AllSpace(s[p + h..p + h + w])
    ensures MatchAt(s, p) == Some(Match(p, h, w, n))
  {
    w, n := LineShape(s, p, h, c);
    LineMatch(s, p, h, w, n);
  }

  /** A line made of one to six `#`, whitespace and then some text (at `c`)
      is a heading: the match is exactly that line, its hashes are the ones
      at the start, and the trimmed second group is the rest of the line
      after the hashes, trimmed. */
  lemma HeadingLine(s: string, p: nat, h: nat, c: nat) returns (m: Match)
    requires p <= |s| && AtLineStart(s, p)
    requires 1 <= h <= 6 && p + h < c < LineEnd(s, p)
    requires forall i :: p <= i < p + h ==> s[i] == '#'
    requires IsSpace(s[p + h]) && !IsSpace(s[c])
    ensures MatchAt(s, p) == Some(m)
    ensures m.hashCount == h && m.End() == LineEnd(s, p)
    ensures Trim(m.Body(s)) == Trim(s[p + h..LineEnd(s, p)])
  {
    var w, n := LineParts(s, p, h, c);
    BodyTrim(s, p, h, w, n, LineEnd(s, p));
    m := Match(p, h, w, n);
  }

  /** The trimmed second group of a match is the trimmed text from the end
      of its hashes up to the end of the match, since the part in between
      is whitespace. */
  lemma BodyTrim(s: string, p: nat, h: nat, w: nat, n: nat, e: nat)
    requires p + h + w + n == e <= |s|
    requires AllSpace(s[p + h..p + h + w])
    ensures Trim(Match(p, h, w, n).Body(s)) == Trim(s[p + h..e])
  {
    TrimAfterSpace(s, p + h, p + h + w, e);
  }

  /** A match that runs over the start of a line does so in its `\s+`
      part: the hashes are no line terminators and `.+` stops before one. */
  lemma LineBreakInGap(s: string, m: Match, p: nat)
    requires m.index <= |s| && MatchAt(s, m.index) == Some(m)
    requires m.index < p < m.End() && AtLineStart(s, p)
    ensures m.index + m.hashCount <= p - 1 < m.BodyStart()
  {
    MatchAtSound(s, m.index);
    assert IsLineTerminator(s[p - 1]);
  }

  /** `exec` on a global regular expression whose `lastIndex` is `i`: the
      match at the first position at or after `i` where the pattern
      matches (see FirstMatchIsFirst), or None (`null`) when there is
      none. */
  function FirstMatch(s: string, i: nat): (r: Option<Match>)
    requires i <= |s|
    ensures r.Some? ==> i <= r.value.index <= |s| && MatchAt(s, r.value.index) == r
    decreases |s| - i
  {
    var here := MatchAt(s, i);
    if here.Some? then here
    else if i == |s| then None
    else FirstMatch(s, i + 1)
  }

  /** `exec` misses no match: when the pattern matches at some `p` at or
      after `i`, FirstMatch finds a match, at `p` or before it. */
  lemma {:induction false} FirstMatchIsFirst(s: string, i: nat, p: nat)
    requires i <= p <= |s| && MatchAt(s, p).Some?
    ensures FirstMatch(s, i).Some? && FirstMatch(s, i).value.index <= p
    decreases p - i
  {
    if MatchAt(s, i).None? {
      assert i < p;
      FirstMatchIsFirst(s, i + 1, p);
    }
  }

  /** The matches all lie within the content `s`. */
  predicate WithinText(s: string, ms: seq<Match>) {
    forall k :: 0 <= k < |ms| ==> ms[k].End() <= |s|
  }

  /** The matches that successive `exec` calls return, starting from
      `lastIndex == i`, up to the first `null`. */
  function Scan(s: string, i: nat): (ms: seq<Match>)
    requires i <= |s|
    ensures WithinText(s, ms)
    decreases |s| - i
  {
    match FirstMatch(s, i)
    case None => []
    case Some(r) =>
      var rest := Scan(s, r.End());
      ConsIndex(r, rest);
      [r] + rest
  }

  /** Every entry of the scan is the match of the pattern at its own
      position, at or after `i`. */
  lemma {:induction false} ScanEntry(s: string, i: nat, k: nat)
    requires i <= |s| && k < |Scan(s, i)|
    ensures i <= Scan(s, i)[k].index <= |s|
    ensures MatchAt(s, Scan(s, i)[k].index) == Some(Scan(s, i)[k])
    decreases k
  {
    var r := FirstMatch(s, i).value;
    var rest := Scan(s, r.End());
    ConsIndex(r, rest);
    if k > 0 {
      ScanEntry(s, r.End(), k - 1);
    }
  }

  /** Each entry of the scan starts where the previous one ended or
      later. */
  lemma {:induction false} ScanNext(s: string, i: nat, k: nat)
    requires i <= |s| && k + 1 < |Scan(s, i)|
    ensures Scan(s, i)[k].End() <= Scan(s, i)[k + 1].index
    decreases k
  {
    var r := FirstMatch(s, i).value;
    var rest := Scan(s, r.End());
    ConsIndex(r, rest);
    if k == 0 {
      ScanEntry(s, r.End(), 0);
      assert Scan(s, i)[0] == r && Scan(s, i)[1] == rest[0];
    } else {
      ScanNext(s, r.End(), k - 1);
      assert Scan(s, i)[k] == rest[k - 1] && Scan(s, i)[k + 1] == rest[k];
    }
  }

  /** The scan misses no heading: every position at or after `i` where the
      pattern matches is the start of a returned match or lies inside one
      (a match can run over a line break through its `\s+` part and so
      swallow the next line). */
  lemma {:induction false} ScanCovers(s: string, i: nat, p: nat) returns (k: nat)
    requires i <= p <= |s| && MatchAt(s, p).Some?
    ensures k < |Scan(s, i)| && Scan(s, i)[k].index <= p < Scan(s, i)[k].End()
    decreases |s| - i
  {
    FirstMatchIsFirst(s, i, p);
    var r := FirstMatch(s, i).value;
    var rest := Scan(s, r.End());
    ConsIndex(r, rest);
    if p < r.End() {
      k := 0;
      assert Scan(s, i)[k] == r;
    } else {
      var k' := ScanCovers(s, r.End(), p);
      k := k' + 1;
      assert Scan(s, i)[k] == rest[k'];
    }
  }
}
