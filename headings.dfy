/** `extractHeadings`: the table-of-contents entries of a markdown text, in
    document order, each with a level, its trimmed text and an identifier
    that is unique within the call. */
module Headings {
  import opened Wrappers
  import opened JsText
  import opened Slug
  import opened HeadingPattern

  /** One entry of the outline: `{ id, text, level }`. */
  datatype Heading = Heading(id: string, text: string, level: nat)

  /** The candidate identifier `${id}-${counter}`. */
  function Suffixed(base: string, counter: nat): string {
    base + "-" + DecimalString(counter)
  }

  lemma SuffixedInjective(base: string, a: nat, b: nat)
    ensures Suffixed(base, a) == Suffixed(base, b) ==> a == b
  {
    if Suffixed(base, a) == Suffixed(base, b) {
      assert DecimalString(a) == Suffixed(base, a)[|base| + 1..];
      assert DecimalString(b) == Suffixed(base, b)[|base| + 1..];
      DecimalInjective(a, b);
    }
  }

  /** If the counters `1 .. c-1` all give identifiers that are taken, then at
      least `c - 1` identifiers are taken: so the counter search stops. */
  lemma {:induction false} TakenSuffixesBound(base: string, used: set<string>, c: nat)
    requires c >= 1
    requires forall d :: 1 <= d < c ==> Suffixed(base, d) in used
    ensures c - 1 <= |used|
    decreases c
  {
    if c > 1 {
      var x := Suffixed(base, c - 1);
      forall d | 1 <= d < c - 1
        ensures Suffixed(base, d) in used - {x}
      {
        SuffixedInjective(base, d, c - 1);
      }
      TakenSuffixesBound(base, used - {x}, c - 1);
    }
  }

  /** The smallest counter from `c` on whose identifier is still free. */
  function FirstFreeCounter(base: string, used: set<string>, c: nat): (k: nat)
    requires c >= 1
    requires forall d :: 1 <= d < c ==> Suffixed(base, d) in used
    ensures k >= c && Suffixed(base, k) !in used
    ensures forall d :: 1 <= d < k ==> Suffixed(base, d) in used
    decreases |used| - c + 1
  {
    TakenSuffixesBound(base, used, c);
    if Suffixed(base, c) !in used then c
    else
      TakenSuffixesBound(base, used, c + 1);
      FirstFreeCounter(base, used, c + 1)
  }

  /** The rule for the identifier `id` of a heading with base identifier
      `base` when `before` holds the identifiers already given out: `id` is
      new; it is the base itself when the base is free, and otherwise the
      base with the smallest counter `c >= 1` that gives a free
      identifier. */
  ghost predicate ChosenFor(id: string, base: string, before: set<string>) {
    && id !in before
    && (base !in before ==> id == base)
    && (base in before ==> exists c: nat :: c >= 1 && id == Suffixed(base, c)
                                 && forall d :: 1 <= d < c ==> Suffixed(base, d) in before)
  }

  /** The identifier a heading with base identifier `base` receives when
      `used` holds the identifiers of the headings before it. */
  function ChooseId(base: string, used: set<string>): (id: string)
    ensures ChosenFor(id, base, used)
  {
    if base !in used then base else Suffixed(base, FirstFreeCounter(base, used, 1))
  }

  /** Any counter that is free while all smaller ones are taken is the one
      ChooseId picks. */
  lemma FirstFreeIsUnique(base: string, used: set<string>, counter: nat)
    requires base in used
    requires counter >= 1 && Suffixed(base, counter) !in used
    requires forall d :: 1 <= d < counter ==> Suffixed(base, d) in used
    ensures ChooseId(base, used) == Suffixed(base, counter)
  {
    var k := FirstFreeCounter(base, used, 1);
  }

  /** The headings of a sequence of matches in `s`, given the identifiers
      already used before the first of them. */
  function Label(s: string, ms: seq<Match>, used: set<string>): (hs: seq<Heading>)
    requires WithinText(s, ms)
    ensures |hs| == |ms|
    ensures forall k :: 0 <= k < |hs| ==> hs[k].level == ms[k].hashCount && hs[k].text == Trim(ms[k].Body(s))
    ensures forall k :: 0 <= k < |hs| ==> hs[k].id !in used
    ensures forall j, k :: 0 <= j < k < |hs| ==> hs[j].id != hs[k].id
  {
    if ms == [] then []
    else
      var text := Trim(ms[0].Body(s));
      var id := ChooseId(Slugify(text), used);
      var rest := Label(s, ms[1..], used + {id});
      ConsIndex(Heading(id, text, ms[0].hashCount), rest);
      [Heading(id, text, ms[0].hashCount)] + rest
  }

  /** What `extractHeadings(content)` returns. */
  function Outline(content: string): seq<Heading> {
    Label(content, Scan(content, 0), {})
  }

  /** The identifiers of a sequence of headings. */
  function Ids(hs: seq<Heading>): set<string> {
    if hs == [] then {} else {hs[0].id} + Ids(hs[1..])
  }

  /** One step of the scan: the first match from `i` on gives the next
      heading, and the rest of the outline continues after it with that
      heading's identifier taken. */
  lemma ScanStep(s: string, i: nat, used: set<string>)
    requires i <= |s| && FirstMatch(s, i).Some?
    ensures var m := FirstMatch(s, i).value;
            var text := Trim(m.Body(s));
            var id := ChooseId(Slugify(text), used);
            i < m.End() <= |s| &&
            Label(s, Scan(s, i), used) == [Heading(id, text, m.hashCount)] + Label(s, Scan(s, m.End()), used + {id})
  {
    var m := FirstMatch(s, i).value;
    assert Scan(s, i) == [m] + Scan(s, m.End());
    assert ([m] + Scan(s, m.End()))[1..] == Scan(s, m.End());
  }

  /** The counter loop of `extractHeadings`: count up from 1 until
      `${base}-${counter}` is not in `used`. */
  method FreeCounter(base: string, used: set<string>) returns (counter: nat)
    ensures counter >= 1 && Suffixed(base, counter) !in used
    ensures forall d :: 1 <= d < counter ==> Suffixed(base, d) in used
  {
    counter := 1;
    while Suffixed(base, counter) in used
      invariant 1 <= counter && counter - 1 <= |used|
      invariant forall d :: 1 <= d < counter ==> Suffixed(base, d) in used
      decreases |used| - counter + 1
    {
      TakenSuffixesBound(base, used, counter + 1);
      counter := counter + 1;
    }
  }

  /** Stated as a lemma so that the loop body sees one fact rather than
      sequence extensionality. */
  lemma AppendAssoc<T>(a: seq<T>, b: seq<T>, c: seq<T>)
    ensures (a + b) + c == a + (b + c)
  {
  }

  /** `extractHeadings`: run the global regular expression over the content
      and give each match its heading, choosing identifiers against the set
      of those already used. */
  method ExtractHeadings(content: string) returns (headings: seq<Heading>)
    ensures headings == Outline(content)
  {
    headings := [];
    var usedIds: set<string> := {};
    var lastIndex: nat := 0;
    var found := FirstMatch(content, lastIndex);
    while found.Some?
      invariant lastIndex <= |content|
      invariant found == FirstMatch(content, lastIndex)
      invariant headings + Label(content, Scan(content, lastIndex), usedIds) == Outline(content)
      decreases |content| - lastIndex
    {
      var m := found.value;
      var level := |m.Hashes(content)|;
      var text := Trim(m.Body(content));
      var base := Slugify(text);
      var id := base;
      if base in usedIds {
        var counter := FreeCounter(base, usedIds);
        id := Suffixed(base, counter);
        FirstFreeIsUnique(base, usedIds, counter);
      }
      ScanStep(content, lastIndex, usedIds);
      ghost var later := Label(content, Scan(content, m.End()), usedIds + {id});
      AppendAssoc(headings, [Heading(id, text, level)], later);
      usedIds := usedIds + {id};
      headings := headings + [Heading(id, text, level)];
      lastIndex := m.End();
      found := FirstMatch(content, lastIndex);
    }
  }

  /** One step of Label: the first match gives the first heading, and the
      rest are labelled with its identifier taken. */
  lemma LabelCons(s: string, ms: seq<Match>, used: set<string>)
    requires WithinText(s, ms) && ms != []
    ensures var hs := Label(s, ms, used);
            var text := Trim(ms[0].Body(s));
            && hs[0] == Heading(ChooseId(Slugify(text), used), text, ms[0].hashCount)
            && hs[1..] == Label(s, ms[1..], used + {hs[0].id})
  {
    var hs := Label(s, ms, used);
    assert hs[1..] == Label(s, ms[1..], used + {hs[0].id});
  }

  /** The identifiers of a prefix of `[x] + t`. */
  lemma IdsOfConsPrefix(x: Heading, t: seq<Heading>, k: nat)
    requires 1 <= k <= |t| + 1
    ensures Ids(([x] + t)[..k]) == {x.id} + Ids(t[..k - 1])
  {
    assert ([x] + t)[..k][1..] == t[..k - 1];
  }

  /** Every identifier in `hs` is the one ChooseId picks for its text
      against `used` and the identifiers before it. */
  predicate ChosenInOrder(hs: seq<Heading>, used: set<string>) {
    hs == [] || (hs[0].id == ChooseId(Slugify(hs[0].text), used) && ChosenInOrder(hs[1..], used + {hs[0].id}))
  }

  lemma {:induction false} LabelChosenInOrder(s: string, ms: seq<Match>, used: set<string>)
    requires WithinText(s, ms)
    ensures ChosenInOrder(Label(s, ms, used), used)
  {
    if ms != [] {
      LabelCons(s, ms, used);
      var hs := Label(s, ms, used);
      LabelChosenInOrder(s, ms[1..], used + {hs[0].id});
    }
  }

  lemma {:induction false} ChosenAt(hs: seq<Heading>, used: set<string>, k: nat)
    requires ChosenInOrder(hs, used) && k < |hs|
    ensures hs[k].id == ChooseId(Slugify(hs[k].text), used + Ids(hs[..k]))
    decreases k
  {
    if k == 0 {
      assert hs[..0] == [];
    } else {
      assert hs == [hs[0]] + hs[1..];
      ChosenAt(hs[1..], used + {hs[0].id}, k - 1);
      ChoiceShift(hs[0], hs[1..], used, k);
    }
  }

  /** The identifier of entry `k` of the rest was chosen against `used`,
      the first identifier and the ones before it in the rest; that is,
      against `used` and the ones before it in the whole sequence. */
  lemma ChoiceShift(x: Heading, rest: seq<Heading>, used: set<string>, k: nat)
    requires 1 <= k <= |rest|
    requires rest[k - 1].id == ChooseId(Slugify(rest[k - 1].text), (used + {x.id}) + Ids(rest[..k - 1]))
    ensures ([x] + rest)[k].id == ChooseId(Slugify(([x] + rest)[k].text), used + Ids(([x] + rest)[..k]))
  {
    ConsIndex(x, rest);
    IdsOfConsPrefix(x, rest, k);
    assert used + Ids(([x] + rest)[..k]) == (used + {x.id}) + Ids(rest[..k - 1]);
  }

  /** Each heading's identifier is the one ChooseId picks against the
      identifiers of the headings before it. */
  lemma LabelChoosesId(s: string, ms: seq<Match>, used: set<string>, k: nat)
    requires WithinText(s, ms) && k < |ms|
    ensures Label(s, ms, used)[k].id == ChooseId(Slugify(Label(s, ms, used)[k].text), used + Ids(Label(s, ms, used)[..k]))
  {
    LabelChosenInOrder(s, ms, used);
    ChosenAt(Label(s, ms, used), used, k);
  }

  /** The identifiers returned by one call are pairwise distinct. */
  lemma OutlineIdsDistinct(content: string, j: nat, k: nat)
    requires j < k < |Outline(content)|
    ensures Outline(content)[j].id != Outline(content)[k].id
  {
  }

  /** Deduplication: each heading's identifier follows the rule of
      ChosenFor against the identifiers of the headings before it; so a
      heading whose base identifier is not among them keeps the base, and
      otherwise it gets `base-c` for the smallest `c >= 1` not used before
      it. */
  lemma OutlineDedup(content: string, k: nat)
    requires k < |Outline(content)|
    ensures ChosenFor(Outline(content)[k].id, Slugify(Outline(content)[k].text), Ids(Outline(content)[..k]))
  {
    LabelChoosesId(content, Scan(content, 0), {}, k);
    assert {} + Ids(Outline(content)[..k]) == Ids(Outline(content)[..k]);
  }

  /** A match that starts a line with exactly `hashCount` hashes (the
      whole run of `#` there, between 1 and 6), followed by whitespace. */
  predicate StartsHeadingLine(content: string, m: Match) {
    && 1 <= m.hashCount <= 6
    && m.index + m.hashCount < |content|
    && AtLineStart(content, m.index)
    && m.hashCount == Run(content, m.index, IsHash)
    && IsSpace(content[m.index + m.hashCount])
  }

  /** Where every heading comes from: its match starts a line with
      exactly `level` hashes, followed by whitespace. */
  lemma OutlineEntryShape(content: string, k: nat)
    requires k < |Scan(content, 0)|
    ensures StartsHeadingLine(content, Scan(content, 0)[k])
  {
    var m := Scan(content, 0)[k];
    ScanEntry(content, 0, k);
    MatchAtSound(content, m.index);
    assert MatchesWith(content, m.index, m.hashCount, m.gapLength, m.bodyLength);
    assert IsSpace(content[m.index + m.hashCount]) && !IsHash(content[m.index + m.hashCount]);
    RunUnique(content, m.index, IsHash, m.hashCount);
  }

  /** Every heading takes its level from its match, and its text is the
      match's second group trimmed, so it has no whitespace at either end;
      its base identifier has the slug shape. */
  lemma OutlineEntryText(content: string, k: nat)
    requires k < |Outline(content)|
    ensures |Scan(content, 0)| == |Outline(content)|
    ensures Outline(content)[k].level == Scan(content, 0)[k].hashCount
    ensures Outline(content)[k].text == Trim(Scan(content, 0)[k].Body(content))
    ensures NoEdgeSpace(Outline(content)[k].text)
    ensures SlugShaped(Slugify(Outline(content)[k].text))
  {
    SlugifyShape(Outline(content)[k].text);
  }

  /** Every heading's level is the number of `#` that start its line,
      between 1 and 6. */
  lemma OutlineLevel(content: string, k: nat)
    requires k < |Outline(content)|
    ensures 1 <= Outline(content)[k].level <= 6
    ensures Outline(content)[k].level == Run(content, Scan(content, 0)[k].index, IsHash)
  {
    OutlineEntryText(content, k);
    OutlineEntryShape(content, k);
  }

  /** Document order: the matches behind the outline follow one another
      without overlapping. */
  lemma ScanOrdered(s: string, i: nat, j: nat, k: nat)
    requires i <= |s| && j < k < |Scan(s, i)|
    ensures Scan(s, i)[j].End() <= Scan(s, i)[k].index
  {
    var ms := Scan(s, i);
    forall t | j <= t < k
      ensures ms[t].End() <= ms[t + 1].index
    {
      ScanNext(s, i, t);
    }
    ChainOrdered(ms, j, k);
  }

  /** Matches each ending before the next one starts end before every later
      one starts. */
  lemma {:induction false} ChainOrdered(ms: seq<Match>, j: nat, k: nat)
    requires j < k < |ms|
    requires forall t :: j <= t < k ==> ms[t].End() <= ms[t + 1].index
    ensures ms[j].End() <= ms[k].index
    decreases k - j
  {
    if j + 1 < k {
      ChainOrdered(ms, j + 1, k);
      assert ms[j + 1].index <= ms[j + 1].End();
    }
  }

  /** No heading is missed: every position where the pattern matches lies
      inside the match of some entry of the outline (at its start, or past
      it when a match swallowed the next line). */
  lemma OutlineComplete(content: string, p: nat) returns (k: nat)
    requires p <= |content| && MatchAt(content, p).Some?
    ensures k < |Outline(content)|
    ensures Scan(content, 0)[k].index <= p < Scan(content, 0)[k].End()
  {
    k := ScanCovers(content, 0, p);
  }

  /** One entry per heading line: a line made of one to six `#`,
      whitespace and then text (at `c`) is the match of an entry of the
      outline, which has the line's hash count as its level and the rest of
      the line, trimmed, as its text; unless the line break in front of the
      line lies in the whitespace of an earlier match, as in "#\n## b", where
      `\s+` runs over the line break and that earlier heading takes the line
      as its text. */
  lemma OutlineHeadingLine(content: string, p: nat, h: nat, c: nat) returns (k: nat)
    requires p <= |content| && AtLineStart(content, p)
    requires 1 <= h <= 6 && p + h < c < LineEnd(content, p)
    requires forall i :: p <= i < p + h ==> content[i] == '#'
    requires IsSpace(content[p + h]) && !IsSpace(content[c])
    ensures k < |Scan(content, 0)| == |Outline(content)|
    ensures Scan(content, 0)[k].index <= p < Scan(content, 0)[k].End()
    ensures Scan(content, 0)[k].index == p ==>
              Outline(content)[k].level == h && Outline(content)[k].text == Trim(content[p + h..LineEnd(content, p)])
    ensures Scan(content, 0)[k].index < p ==>
              Scan(content, 0)[k].index + Scan(content, 0)[k].hashCount <= p - 1 < Scan(content, 0)[k].BodyStart()
  {
    var line := HeadingLine(content, p, h, c);
    k := OutlineComplete(content, p);
    OutlineEntryText(content, k);
    ScanEntry(content, 0, k);
    var m := Scan(content, 0)[k];
    if m.index < p {
      LineBreakInGap(content, m, p);
    }
  }

  /** Text without any match contributes nothing: the outline of an empty
      string is empty. */
  lemma OutlineOfEmpty()
    ensures Outline("") == []
  {
    assert MatchAt("", 0).None?;
  }
}
