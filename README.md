# Blog library of the Instafel website, in Dafny

This project models `instafel.website/src/lib/blog.ts`, the blog library of the
Instafel website, and proves properties of the model. It covers three functions.

- `extractHeadings(content)` builds a page's table of contents. A global
  regular expression `/^(#{1,6})\s+(.+)$/gm` is run over the markdown with
  repeated `exec` calls. Every match becomes a `{ id, text, level }` entry:
  - `level` is the number of `#`;
  - `text` is the second group, trimmed;
  - `id` is the slug of the text. When that slug is already in the set of
    used ids, the id is the slug with the first free `-1`, `-2`, … counter.
- `getAllPostsSync()` loads the posts:
  - it keeps the `.md` files of the blog directory;
  - it builds one record per file (`id`, `title`, `subtitle`, `description`,
    `slug`, `content`);
  - it sorts the records by id;
  - it returns the empty list when the directory is missing or anything throws.
- `getPostByIdSync(key)` returns the first loaded post whose `id.toString()`
  is `key`.

The modules follow the pieces of the library:

- `JsText` (jstext.dfy) holds the ECMAScript building blocks the code relies
  on: the exact `\s` set (also used by `trim`), ASCII `\w`, `toLowerCase` on
  ASCII letters, `trim`, and decimal printing.
- `JsNumber` (jsnumber.dfy) holds `parseInt` without a radix and
  `Number.prototype.toString` on the values `parseInt` yields. NaN is `None`.
- `Slug` (slug.dfy) holds the three `replace` calls that turn a heading text
  into its base id.
- `HeadingPattern` (heading_pattern.dfy) holds the heading regular expression
  and the `exec` scan.
  - The pattern is matched on the whole content with ECMAScript semantics,
    not line by line. Under the `m` flag, `\s+` also matches line breaks, so
    a match can run onto the next line. For example, `"#\n## b"` gives a
    single heading with the text `"## b"`.
  - `MatchAt` is the match a backtracking engine finds at one position. It is
    proved to be the greedy choice among all matches that the declarative
    `MatchesWith` allows.
- `Headings` (headings.dfy) holds `ExtractHeadings`. It is the imperative
  loop with its `usedIds` set and counter loop, proved equal to the
  functional `Outline`. The properties of the table of contents are lemmas
  about `Outline`.
- `Blog` (blog.dfy) holds the loader and the lookup. The directory is given
  as a value: missing, not listable, or a listing. In a listing, each entry
  carries what reading and parsing the file would give.

## Model

| member | source | states |
|---|---|---|
| HeadingPattern.AtLineStart | instafel.website/src/lib/blog.ts:77 | definition of `^` under the `m` flag: the start of the input or just after a line terminator |
| HeadingPattern.MatchesWith | instafel.website/src/lib/blog.ts:77 | the declarative reading of `/^(#{1,6})\s+(.+)$/m` at one position with given lengths of the three parts; MatchAtSound and MatchAtPreferred relate MatchAt to it |
| HeadingPattern.MatchAt | instafel.website/src/lib/blog.ts:77 | the match of `/^(#{1,6})\s+(.+)$/m` at one position: when there is one, it starts there and ends within the content |
| HeadingPattern.MatchAtSound | instafel.website/src/lib/blog.ts:77 | whatever MatchAt returns satisfies the pattern: line start, one to six `#`, whitespace, text without line terminators, then `$` |
| HeadingPattern.MatchAtPreferred | instafel.website/src/lib/blog.ts:77 | every way the pattern can match at a position is found by MatchAt, and MatchAt's lengths are the greedy (largest) ones; so MatchAt is None exactly when the pattern cannot match there |
| HeadingPattern.SevenHashesNeverMatch | instafel.website/src/lib/blog.ts:77 | a line starting with seven or more `#` is no heading |
| HeadingPattern.NoSpaceAfterHashesNeverMatch | instafel.website/src/lib/blog.ts:77 | hashes with no whitespace after them start no heading |
| HeadingPattern.TextAfterGap | instafel.website/src/lib/blog.ts:77 | when text follows the whitespace run on the line, the pattern matches with the whole run as `\s+` and the rest of the line as `.+` |
| HeadingPattern.GapToEnd | instafel.website/src/lib/blog.ts:77 | when the whitespace runs to the end of the input, the pattern matches with `\s+` giving back everything from the last character that is not a line terminator |
| HeadingPattern.LineShape | instafel.website/src/lib/blog.ts:77 | a line of 1-6 `#`, whitespace and text splits into parts fitting the pattern, with the whole whitespace run as the gap |
| HeadingPattern.LineMatch | instafel.website/src/lib/blog.ts:77 | such a split that takes the whole whitespace run and the rest of the line is exactly the match MatchAt returns |
| HeadingPattern.LineParts | instafel.website/src/lib/blog.ts:77 | on such a line the match covers the line up to its end, takes whitespace as its gap and is MatchAt's result |
| HeadingPattern.HeadingLine | instafel.website/src/lib/blog.ts:77-84 | a line of 1-6 `#`, whitespace and text is matched as a whole; the level is the hash count and the trimmed second group is the rest of the line trimmed |
| HeadingPattern.BodyTrim | instafel.website/src/lib/blog.ts:84 | trimming the second group gives the same as trimming everything after the hashes, because the gap is whitespace |
| HeadingPattern.LineBreakInGap | instafel.website/src/lib/blog.ts:77 | a match that runs past a line start does so only inside its `\s+` part |
| HeadingPattern.LineEnd | instafel.website/src/lib/blog.ts:77 | the end of the line holding a position: a line terminator or the end of the content, with no terminator before it |
| HeadingPattern.LastNonTerminator | instafel.website/src/lib/blog.ts:77 | the last position in a range not holding a line terminator, or None when every position does; used where `\s+` gives back characters at the end of the input |
| HeadingPattern.FirstMatch | instafel.website/src/lib/blog.ts:82 | one `exec` call from `lastIndex`: a match at or after `lastIndex` that MatchAt confirms |
| HeadingPattern.FirstMatchIsFirst | instafel.website/src/lib/blog.ts:82 | `exec` skips no match: with a match at some later position, it finds one at that position or before it |
| HeadingPattern.Scan | instafel.website/src/lib/blog.ts:82 | the matches of the successive `exec` calls up to `null`, all within the content |
| HeadingPattern.ScanEntry | instafel.website/src/lib/blog.ts:82 | every scanned entry is the pattern's match at its own position, at or after the start |
| HeadingPattern.ScanNext | instafel.website/src/lib/blog.ts:82 | each scanned match starts at or after the end of the previous one |
| HeadingPattern.ScanCovers | instafel.website/src/lib/blog.ts:82 | every position where the pattern matches lies inside some scanned match |
| Headings.Outline | instafel.website/src/lib/blog.ts:74-104 | definition of what `extractHeadings(content)` returns: the matches of the scan labelled against an empty set of used ids; the loop is proved equal to it in ExtractHeadings, and its properties are OutlineIdsDistinct, OutlineDedup, OutlineLevel, OutlineEntryText, OutlineComplete and OutlineHeadingLine |
| Headings.ExtractHeadings | instafel.website/src/lib/blog.ts:74-104 | the imperative loop (exec, level, trim, slug, dedup-with-counter, `usedIds.add`, `push`) returns exactly `Outline(content)` |
| Headings.FreeCounter | instafel.website/src/lib/blog.ts:93-96 | the counter loop stops at the smallest counter `>= 1` with `${id}-${counter}` not in `usedIds` |
| Headings.TakenSuffixesBound | instafel.website/src/lib/blog.ts:94-96 | the counter loop terminates: with counters `1..c-1` taken, at least `c-1` ids are used |
| Headings.Suffixed | instafel.website/src/lib/blog.ts:94-97 | definition of the template `${id}-${counter}`; distinct counters give distinct ids by SuffixedInjective |
| Headings.SuffixedInjective | instafel.website/src/lib/blog.ts:94 | distinct counters give distinct suffixed ids |
| Headings.FirstFreeCounter | instafel.website/src/lib/blog.ts:93-96 | the first free counter from `c` on, with all counters below it taken |
| Headings.ChosenFor | instafel.website/src/lib/blog.ts:92-97 | the rule for an identifier, stated apart from the loop: new, and the base when it is free, otherwise the base with the smallest counter from 1 whose suffixed form is free |
| Headings.ChooseId | instafel.website/src/lib/blog.ts:92-98 | the chosen id is new; it is the base when the base is unused, otherwise base plus the smallest free counter |
| Headings.FirstFreeIsUnique | instafel.website/src/lib/blog.ts:92-98 | any counter that is free while all smaller ones are taken is the one ChooseId uses |
| Headings.Label | instafel.website/src/lib/blog.ts:82-101 | one heading per match, in order, with level the hash count and text the trimmed second group; ids avoid the used set and are pairwise distinct |
| Headings.ScanStep | instafel.website/src/lib/blog.ts:82-102 | one loop iteration: the next match gives the next heading, and the rest continues from its end with its id taken |
| Headings.LabelCons | instafel.website/src/lib/blog.ts:84-101 | the first heading is built from the first match and the rest are labelled with its id taken |
| Headings.LabelChosenInOrder | instafel.website/src/lib/blog.ts:92-100 | every id is chosen against the ids given out before it |
| Headings.ChosenAt | instafel.website/src/lib/blog.ts:92-100 | entry `k`'s id is ChooseId of its slug against the used set and the ids of entries before `k` |
| Headings.LabelChoosesId | instafel.website/src/lib/blog.ts:92-100 | each heading's id is chosen against the ids of the headings before it |
| Headings.OutlineIdsDistinct | instafel.website/src/lib/blog.ts:100 | the ids returned by one call are pairwise distinct |
| Headings.OutlineDedup | instafel.website/src/lib/blog.ts:85-100 | deduplication: entry `k` keeps its base slug if no earlier entry has it, and otherwise gets `base-c` for the smallest `c >= 1` not given out before it; the id is new |
| Headings.StartsHeadingLine | instafel.website/src/lib/blog.ts:77-82 | definition of a match that starts a line with its whole run of one to six `#` followed by whitespace; OutlineEntryShape proves it of every entry |
| Headings.OutlineEntryShape | instafel.website/src/lib/blog.ts:77-83 | every heading's match starts a line with one to six `#` (the whole run of `#`), followed by whitespace |
| Headings.OutlineLevel | instafel.website/src/lib/blog.ts:82 | every heading's level is the whole run of `#` at the start of its match, between 1 and 6 |
| Headings.OutlineEntryText | instafel.website/src/lib/blog.ts:83-89 | level is the hash count, text is the trimmed second group with no whitespace at either end, and the base id has the slug shape |
| Headings.ScanOrdered | instafel.website/src/lib/blog.ts:82-101 | document order: earlier entries end before later ones start |
| Headings.OutlineComplete | instafel.website/src/lib/blog.ts:82-101 | no match is missed: every position where the pattern matches is inside some entry's match |
| Headings.OutlineHeadingLine | instafel.website/src/lib/blog.ts:77-84 | a heading line yields an entry with its level and trimmed text, unless an earlier match's whitespace ran over the line break before it |
| Headings.OutlineOfEmpty | instafel.website/src/lib/blog.ts:103 | empty content gives an empty list |
| Slug.Slugify | instafel.website/src/lib/blog.ts:85-89 | definition: the three replacements applied to the lower-cased text; its shape is SlugifyShape, idempotence SlugifyIdempotent, and indifference to punctuation PunctuationIgnored |
| Slug.StripDisallowed | instafel.website/src/lib/blog.ts:87 | definition of `.replace(/[^\w\s-]/g, "")`; StripShape, StripKeepsKept and StripConcat carry its properties |
| Slug.HyphenateSpaces | instafel.website/src/lib/blog.ts:88 | definition of `.replace(/\s+/g, "-")`; HyphenateShape and HyphenateKeepsSlug carry its properties |
| Slug.CollapseHyphens | instafel.website/src/lib/blog.ts:89 | definition of `.replace(/-+/g, "-")`; CollapseShape and CollapseKeepsSlug carry its properties |
| Slug.SlugifyShape | instafel.website/src/lib/blog.ts:85-89 | the base id holds only `a-z`, digits, `_` and `-`, never two hyphens in a row and no whitespace |
| Slug.StripShape | instafel.website/src/lib/blog.ts:87 | `replace(/[^\w\s-]/g, "")` keeps only `[\w\s-]` and adds no upper-case letter |
| Slug.HyphenateShape | instafel.website/src/lib/blog.ts:88 | `replace(/\s+/g, "-")` leaves no whitespace |
| Slug.CollapseShape | instafel.website/src/lib/blog.ts:89 | `replace(/-+/g, "-")` leaves no double hyphen and keeps the first character |
| Slug.SlugOfSlug | instafel.website/src/lib/blog.ts:85-89 | a text already of slug shape is its own slug |
| Slug.SlugifyIdempotent | instafel.website/src/lib/blog.ts:85-89 | slugging a slug changes nothing |
| Slug.LowerKeepsSlug | instafel.website/src/lib/blog.ts:86 | lower-casing leaves slug characters alone |
| Slug.StripKeepsKept | instafel.website/src/lib/blog.ts:87 | the first replacement leaves `[\w\s-]` text alone |
| Slug.HyphenateKeepsSlug | instafel.website/src/lib/blog.ts:88 | the second replacement leaves slug characters alone |
| Slug.CollapseKeepsSlug | instafel.website/src/lib/blog.ts:89 | the third replacement leaves text without double hyphens alone |
| Slug.StripConcat | instafel.website/src/lib/blog.ts:87 | the first replacement works character by character |
| Slug.LowerConcat | instafel.website/src/lib/blog.ts:86 | lower-casing works character by character |
| Slug.PunctuationIgnored | instafel.website/src/lib/blog.ts:85-89 | removing a character outside `[A-Za-z0-9_\s-]` from the text does not change its slug |
| JsText.IsLineTerminator | instafel.website/src/lib/blog.ts:77 | definition of the ECMAScript LineTerminator set: line feed, carriage return, U+2028 and U+2029 |
| JsText.IsSpace | instafel.website/src/lib/blog.ts:77 | definition of the ECMAScript `\s` class, WhiteSpace and LineTerminator, which `trim` removes as well |
| JsText.IsWordChar | instafel.website/src/lib/blog.ts:87 | definition of `\w` without the `u` flag: the ASCII letters, the digits and `_` |
| JsText.ToLower | instafel.website/src/lib/blog.ts:86 | ASCII `toLowerCase` of one character: upper-case letters move up by 32 code points to their lower-case letters, everything else stays |
| JsText.Lower | instafel.website/src/lib/blog.ts:86 | `toLowerCase` character by character, same length |
| JsText.Trim | instafel.website/src/lib/blog.ts:84 | `trim()`: no longer than the input, with no whitespace at either end |
| JsText.TrimStart | instafel.website/src/lib/blog.ts:84 | the leading whitespace removed: no longer than the input and no whitespace first |
| JsText.TrimEnd | instafel.website/src/lib/blog.ts:84 | the trailing whitespace removed: no longer than the input and no whitespace last |
| JsText.TrimStartRemovesSpace | instafel.website/src/lib/blog.ts:84 | what the leading trim removes is whitespace only |
| JsText.TrimEndRemovesSpace | instafel.website/src/lib/blog.ts:84 | what the trailing trim removes is whitespace only |
| JsText.TrimIsInfix | instafel.website/src/lib/blog.ts:84 | trim removes only whitespace, and only at the two ends |
| JsText.TrimLeadingSpace | instafel.website/src/lib/blog.ts:84 | whitespace in front of a string does not change its trim |
| JsText.TrimAfterSpace | instafel.website/src/lib/blog.ts:84 | a whitespace stretch at the start of a slice does not change its trim |
| JsText.DecimalString | instafel.website/src/lib/blog.ts:94 | the decimal numeral of a counter as the template prints it: digits only, no leading zero unless it is "0" |
| JsText.DecimalInjective | instafel.website/src/lib/blog.ts:94 | distinct counters print as distinct numerals |
| JsText.CanonicalRoundTrip | instafel.website/src/lib/blog.ts:71 | printing the value of a canonical numeral gives the numeral back |
| JsText.DecimalRoundTrip | instafel.website/src/lib/blog.ts:94 | reading back a printed counter gives the counter |
| JsNumber.ParseInt | instafel.website/src/lib/blog.ts:49 | definition of `parseInt` without a radix: leading whitespace, an optional sign, `0x` for radix 16, otherwise radix 10, NaN when no digit is read; ParseLeadingDigits, ParseDecimal, ParseNegative and ParseShowRoundTrip carry its properties |
| JsNumber.Show | instafel.website/src/lib/blog.ts:71 | `toString` of an id: a non-negative value prints as a canonical decimal numeral, a negative one as `-` and a canonical numeral, NaN as "NaN"; ParseShowRoundTrip and ShowInjective carry the rest |
| JsNumber.ParseLeadingDigits | instafel.website/src/lib/blog.ts:49 | `parseInt` reads the leading run of decimal digits, leading zeros included (`"007abc"` gives 7), and ignores what follows |
| JsNumber.ParseDecimal | instafel.website/src/lib/blog.ts:49 | a string that starts with a decimal digit and not with `0x` or `0X` is read in radix 10 from its first character, as its whole leading digit run |
| JsNumber.SkipSign | instafel.website/src/lib/blog.ts:49 | the part of `parseInt`'s input after leading whitespace and an optional sign, with whether the sign was `-`; never longer than the input |
| JsNumber.ParseNegative | instafel.website/src/lib/blog.ts:71 | `parseInt` reads `-` followed by a canonical numeral other than "0" as the negated value, so negative ids print and parse back |
| JsNumber.ParseShowRoundTrip | instafel.website/src/lib/blog.ts:71 | `parseInt(String(x)) == x` for every number of the model, NaN included (numbers printed in exponent form are left out, see below) |
| JsNumber.ShowInjective | instafel.website/src/lib/blog.ts:71 | two ids that print alike are equal |
| JsNumber.ShowOfCanonical | instafel.website/src/lib/blog.ts:71 | a decimal numeral without leading zeros is what its value prints as |
| Blog.EndsWith | instafel.website/src/lib/blog.ts:34 | definition of `endsWith`: the last characters of the name are the suffix; KeepMarkdown and SlugOf are stated with it |
| Blog.PostId | instafel.website/src/lib/blog.ts:37-49 | definition of `parseInt(fileName.split(".")[0])`; IdOfNumberedName, ZeroPaddedName and FileNameFields carry its properties |
| Blog.ToPost | instafel.website/src/lib/blog.ts:48-58 | definition of the record built for one file, without the colour; FileNameFields gives its id, subtitle and slug |
| Blog.Split | instafel.website/src/lib/blog.ts:37 | `split(".")` gives at least one piece, no piece holds `.`, and joining the pieces gives the name back |
| Blog.SplitJoin | instafel.website/src/lib/blog.ts:37 | splitting a join of dot-free pieces gives the pieces back |
| Blog.Subtitle | instafel.website/src/lib/blog.ts:51 | the second dot piece with `-` read as space, or "Guide" when there is no second piece or it is empty; never empty |
| Blog.HyphensToSpaces | instafel.website/src/lib/blog.ts:51 | every `-` becomes a space, nothing else changes |
| Blog.SlugOf | instafel.website/src/lib/blog.ts:56 | the slug plus ".md" is the file name of a markdown file |
| Blog.OrElse | instafel.website/src/lib/blog.ts:50-52 | an absent or empty front-matter value gives the default ("Untitled", "") |
| Blog.KeepMarkdown | instafel.website/src/lib/blog.ts:34 | keeps exactly the entries whose name ends in ".md" |
| Blog.KeepMarkdownConcat | instafel.website/src/lib/blog.ts:34 | the filter works entry by entry and keeps the listing order |
| Blog.BuildPosts | instafel.website/src/lib/blog.ts:35-59 | one record per entry in order, or failure exactly when some entry cannot be read or parsed |
| Blog.BuildFailsExactly | instafel.website/src/lib/blog.ts:35-59 | building fails exactly when some markdown entry of the listing fails |
| Blog.LoadPosts | instafel.website/src/lib/blog.ts:22-67 | empty when the directory is missing or unlistable or a markdown file fails; otherwise the records built for the markdown files, each exactly once (the same multiset), each from a markdown entry |
| Blog.SortedFromListing | instafel.website/src/lib/blog.ts:33-60 | the sorted records are the built records rearranged (the same multiset), as many as the markdown entries, each built from one of them |
| Blog.Compare | instafel.website/src/lib/blog.ts:60 | definition of the comparator `a.id - b.id`, with a NaN result read as 0; SortSorted, InsertWithId and SortStable carry what sorting with it gives |
| Blog.Insert | instafel.website/src/lib/blog.ts:60 | one insertion step of the sort: the result is the input plus the inserted post, as a multiset |
| Blog.SortById | instafel.website/src/lib/blog.ts:60 | the sort is a permutation of its input |
| Blog.SortRearranges | instafel.website/src/lib/blog.ts:60 | sorting keeps the length and takes every element from the input |
| Blog.InsertBounded | instafel.website/src/lib/blog.ts:60 | insertion keeps a lower bound on the ids |
| Blog.InsertSorted | instafel.website/src/lib/blog.ts:60 | insertion into an ascending list keeps it ascending |
| Blog.SortSorted | instafel.website/src/lib/blog.ts:60 | with numeric ids the sorted list ascends by id |
| Blog.LoadPostsSorted | instafel.website/src/lib/blog.ts:60 | when every markdown file has a numeric id, the loaded list ascends by id |
| Blog.InsertWithId | instafel.website/src/lib/blog.ts:60 | insertion puts the post ahead of the posts with its own id |
| Blog.SortStable | instafel.website/src/lib/blog.ts:60 | the sort is stable: posts with equal ids keep their listing order (the program's order when every id is numeric; see Blog.Compare below) |
| Blog.FindPost | instafel.website/src/lib/blog.ts:71 | `find`: None exactly when no post's id prints as the key; otherwise the first post whose id prints as the key |
| Blog.FirstWithId | instafel.website/src/lib/blog.ts:71 | the first post with a given id, None exactly when there is none |
| Blog.FindById | instafel.website/src/lib/blog.ts:71 | looking up `String(n)` finds the first post whose id is `n` |
| Blog.FirstWithIdIsHeadOfWithId | instafel.website/src/lib/blog.ts:71 | the first post with id `n` is the head of the posts with id `n` |
| Blog.GetPostById | instafel.website/src/lib/blog.ts:69-71 | definition of `getPostByIdSync`: the first loaded post whose printed id equals the key; GetPostByIdFirstInListing and LeadingZeroKeyMisses carry its properties |
| Blog.GetPostByIdFirstInListing | instafel.website/src/lib/blog.ts:69-71 | `getPostByIdSync(String(n))` is the record of the first markdown file in listing order whose id is `n`, or none, when every id is numeric; with a NaN id this is the model's sort order (see Blog.Compare below) |
| Blog.LeadingZeroKeyMisses | instafel.website/src/lib/blog.ts:71 | a key with a leading zero such as "01" never finds a post |
| Blog.ZeroPaddedName | instafel.website/src/lib/blog.ts:37-49 | a file named with a zero-padded number such as `01.intro.md` gets the number's value (1) as its id, which does not print as the padded prefix |
| Blog.PaddedNumeral | instafel.website/src/lib/blog.ts:49 | `parseInt` of a zero-padded numeral is its value, and that value does not print as the numeral |
| Blog.IdOfNumberedName | instafel.website/src/lib/blog.ts:37-49 | a name whose first dot piece is a canonical numeral gets that number as id, and the id prints back as that piece |
| Blog.FileNameFields | instafel.website/src/lib/blog.ts:36-56 | for a name `<prefix>.<words>.md` with no dot in either part (such as "1.example-post1.md"), the id is `parseInt` of the prefix, the subtitle the words with hyphens as spaces ("example post1") or "Guide" when they are empty, and the slug the name without ".md" |
| Blog.SlugRoundTrip | instafel.website/src/lib/blog.ts:56 | each loaded post's slug, plus ".md", is the name of a markdown file of the listing |

## Left out

- File-system access is not modelled: the existence check, the listing, reading files and building paths. The directory and its files are an input value of type `BlogDir`.
- The front-matter parser is not modelled. Its `{ data, content }` result, or its failure, is part of each listing entry.
- Front-matter values that are not strings are not modelled: the `title` and `description` values are absent or strings.
- The random `color` of each record is left out, because it comes from `Math.random`.
- Logging is left out. The `try`/`catch` blocks are modelled only by their outcome, the empty list.
- JsText.ToLower: lower-cases only ASCII letters. Full Unicode `toLowerCase` is not modelled.
- JsNumber.ParseInt: reads decimal and `0x` hexadecimal digits with unbounded integers. It does not model rounding to double precision for values above 2^53, or `Infinity`.
- JsNumber.Show: prints every integer in plain decimal. JavaScript prints values of 1e21 and above in exponent form (`String(1e21)` is "1e+21", which `parseInt` reads back as 1), so ParseShowRoundTrip holds for the program only below 1e21.
- The numbers `-0` and `0` are one value. They compare equal and both print as "0", so no result in this model can tell them apart.
- Blog.Compare: treats a NaN comparator result as 0, as `Array.prototype.sort` reads it. The order JavaScript's sort then gives is left to the engine. When one id is NaN and two others differ, the comparator `a.id - b.id` is inconsistent and ECMAScript leaves the whole order to the engine. The model then still returns its own stable insertion sort. SortSorted and LoadPostsSorted require every id to be numeric. SortStable and GetPostByIdFirstInListing describe the program only when every id is numeric; with a NaN id they describe the model's order.
- Strings are sequences of Unicode code points, not UTF-16 code units. This changes no result here, because everything the code changes or compares is ASCII or whitespace.
- HeadingPattern.FirstMatch: `exec` is modelled for this pattern only. It never matches the empty string, so `lastIndex` always moves forward.
