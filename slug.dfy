/** The base identifier `extractHeadings` derives from a heading's text:
    `text.toLowerCase().replace(/[^\w\s-]/g, "").replace(/\s+/g, "-")
    .replace(/-+/g, "-")`. */
module Slug {
  import opened JsText

  /** The characters `[\w\s-]`, which the first replacement keeps. */
  predicate IsKept(c: char) {
    IsWordChar(c) || IsSpace(c) || c == '-'
  }

  predicate IsHyphen(c: char) {
    c == '-'
  }

  /** A character a base identifier may hold: a lower-case ASCII letter, a
      digit, `_` or `-`. */
  predicate IsSlugChar(c: char) {
    ('a' <= c <= 'z') || IsDigit(c) || c == '_' || c == '-'
  }

  predicate NoDoubleHyphen(s: string) {
    forall i :: 0 <= i < |s| - 1 ==> !(s[i] == '-' && s[i + 1] == '-')
  }

  /** The shape of every base identifier. */
  predicate SlugShaped(s: string) {
    AllSlugChars(s) && NoDoubleHyphen(s)
  }

  predicate AllSlugChars(s: string) {
    forall i :: 0 <= i < |s| ==> IsSlugChar(s[i])
  }

  predicate NoUpper(s: string) {
    forall i :: 0 <= i < |s| ==> !IsUpper(s[i])
  }

  /** `.replace(/[^\w\s-]/g, "")`: drop every character outside `[\w\s-]`,
      keeping the order of the others. */
  function StripDisallowed(s: string): string {
    if s == [] then []
    else (if IsKept(s[0]) then [s[0]] else []) + StripDisallowed(s[1..])
  }

  /** `.replace(/\s+/g, "-")`: every maximal run of whitespace becomes one
      hyphen. */
  function HyphenateSpaces(s: string): string
    decreases |s|
  {
    if s == [] then []
    else if IsSpace(s[0]) then "-" + HyphenateSpaces(s[Run(s, 0, IsSpace)..])
    else [s[0]] + HyphenateSpaces(s[1..])
  }

  /** `.replace(/-+/g, "-")`: every maximal run of hyphens becomes one. */
  function CollapseHyphens(s: string): string
    decreases |s|
  {
    if s == [] then []
    else if s[0] == '-' then "-" + CollapseHyphens(s[Run(s, 0, IsHyphen)..])
    else [s[0]] + CollapseHyphens(s[1..])
  }

  /** The base identifier of a heading text. (Its properties are lemmas,
      so that unfolding it elsewhere stays cheap.) */
  function Slugify(text: string): string {
    CollapseHyphens(HyphenateSpaces(StripDisallowed(Lower(text))))
  }

  /** The first replacement keeps only characters of `[\w\s-]`, and none
      that was not there: no upper-case letter when the input had none. */
  lemma {:induction false} StripShape(s: string)
    requires NoUpper(s)
    ensures forall i :: 0 <= i < |StripDisallowed(s)| ==> IsKept(StripDisallowed(s)[i]) && !IsUpper(StripDisallowed(s)[i])
  {
    if s != [] {
      StripShape(s[1..]);
      var r := StripDisallowed(s[1..]);
      if IsKept(s[0]) {
        assert StripDisallowed(s) == [s[0]] + r;
        ConsIndex(s[0], r);
      } else {
        assert StripDisallowed(s) == r;
      }
    }
  }

  /** After the second replacement there is no whitespace left, and kept
      lower-case characters become slug characters. */
  lemma {:induction false} HyphenateShape(s: string)
    requires forall i :: 0 <= i < |s| ==> IsKept(s[i]) && !IsUpper(s[i])
    ensures forall i :: 0 <= i < |HyphenateSpaces(s)| ==> IsSlugChar(HyphenateSpaces(s)[i]) && !IsSpace(HyphenateSpaces(s)[i])
    decreases |s|
  {
    if s != [] {
      if IsSpace(s[0]) {
        var n := Run(s, 0, IsSpace);
        var t := s[n..];
        assert forall i :: 0 <= i < |t| ==> t[i] == s[n + i];
        HyphenateShape(t);
        assert HyphenateSpaces(s) == ['-'] + HyphenateSpaces(t);
        ConsIndex('-', HyphenateSpaces(t));
      } else {
        HyphenateShape(s[1..]);
        assert HyphenateSpaces(s) == [s[0]] + HyphenateSpaces(s[1..]);
        ConsIndex(s[0], HyphenateSpaces(s[1..]));
      }
    }
  }

  /** The third replacement leaves no two hyphens in a row, keeps the first
      character, and neither adds whitespace nor characters outside the
      slug characters. */
  lemma {:induction false} CollapseShape(s: string)
    requires forall i :: 0 <= i < |s| ==> IsSlugChar(s[i]) && !IsSpace(s[i])
    ensures NoDoubleHyphen(CollapseHyphens(s))
    ensures s != [] ==> CollapseHyphens(s) != [] && CollapseHyphens(s)[0] == s[0]
    ensures forall i :: 0 <= i < |CollapseHyphens(s)| ==> IsSlugChar(CollapseHyphens(s)[i]) && !IsSpace(CollapseHyphens(s)[i])
    decreases |s|
  {
    if s != [] {
      var n := if s[0] == '-' then Run(s, 0, IsHyphen) else 1;
      var t := s[n..];
      assert forall i :: 0 <= i < |t| ==> t[i] == s[n + i];
      CollapseShape(t);
      var c := CollapseHyphens(t);
      ConsIndex(s[0], c);
      assert CollapseHyphens(s) == [s[0]] + c;
      assert t != [] ==> t[0] != '-' || s[0] != '-';
    }
  }

  /** Every base identifier holds lower-case word characters, digits, `_`
      and single hyphens only; in particular no whitespace. */
  lemma SlugifyShape(text: string)
    ensures SlugShaped(Slugify(text))
    ensures forall i :: 0 <= i < |Slugify(text)| ==> !IsSpace(Slugify(text)[i])
  {
    var l := Lower(text);
    assert NoUpper(l);
    StripShape(l);
    var a := StripDisallowed(l);
    HyphenateShape(a);
    var b := HyphenateSpaces(a);
    CollapseShape(b);
  }

  lemma {:induction false} LowerKeepsSlug(s: string)
    requires AllSlugChars(s)
    ensures Lower(s) == s
  {
    if s != [] {
      LowerKeepsSlug(s[1..]);
    }
  }

  lemma {:induction false} StripKeepsKept(s: string)
    requires forall i :: 0 <= i < |s| ==> IsKept(s[i])
    ensures StripDisallowed(s) == s
  {
    if s != [] {
      StripKeepsKept(s[1..]);
    }
  }

  lemma {:induction false} HyphenateKeepsSlug(s: string)
    requires AllSlugChars(s)
    ensures HyphenateSpaces(s) == s
  {
    if s != [] {
      HyphenateKeepsSlug(s[1..]);
    }
  }

  lemma {:induction false} CollapseKeepsSlug(s: string)
    requires NoDoubleHyphen(s)
    ensures CollapseHyphens(s) == s
  {
    if s != [] {
      if s[0] == '-' {
        assert Run(s, 0, IsHyphen) == 1;
      }
      CollapseKeepsSlug(s[1..]);
    }
  }

  /** A text that already has the shape of a base identifier is its own
      base identifier; so slugging is idempotent. */
  lemma SlugOfSlug(text: string)
    requires SlugShaped(text)
    ensures Slugify(text) == text
  {
    LowerKeepsSlug(text);
    StripKeepsKept(text);
    HyphenateKeepsSlug(text);
    CollapseKeepsSlug(text);
  }

  lemma SlugifyIdempotent(text: string)
    ensures Slugify(Slugify(text)) == Slugify(text)
  {
    SlugifyShape(text);
    SlugOfSlug(Slugify(text));
  }

  lemma {:induction false} StripConcat(a: string, b: string)
    ensures StripDisallowed(a + b) == StripDisallowed(a) + StripDisallowed(b)
  {
    if a != [] {
      assert (a + b)[1..] == a[1..] + b;
      StripConcat(a[1..], b);
    } else {
      assert a + b == b;
    }
  }

  lemma {:induction false} LowerConcat(a: string, b: string)
    ensures Lower(a + b) == Lower(a) + Lower(b)
  {
    if a != [] {
      assert (a + b)[1..] == a[1..] + b;
      LowerConcat(a[1..], b);
    } else {
      assert a + b == b;
    }
  }

  /** A character outside `[A-Za-z0-9_\s-]` (punctuation, say) makes no
      difference to the base identifier: it is as if it were not there. */
  lemma PunctuationIgnored(a: string, c: char, b: string)
    requires !IsKept(c)
    ensures Slugify(a + [c] + b) == Slugify(a + b)
  {
    LowerConcat(a + [c], b);
    LowerConcat(a, [c]);
    LowerConcat(a, b);
    assert Lower([c]) == [c];
    assert StripDisallowed([c]) == [];
    StripConcat(Lower(a) + [c], Lower(b));
    StripConcat(Lower(a), [c]);
    StripConcat(Lower(a), Lower(b));
    assert StripDisallowed(Lower(a + [c] + b)) == StripDisallowed(Lower(a + b));
  }
}
