/** The post loader `getAllPostsSync` and the lookup `getPostByIdSync`,
    with the file system and the front-matter parser as inputs: a listing of
    the blog directory in which each entry carries what reading and parsing
    the file would give. */
module Blog {
  import opened Wrappers
  import opened JsText
  import opened JsNumber

  /** The front-matter values the loader reads; `None` is an absent key. */
  datatype FrontMatter = FrontMatter(title: Option<string>, description: Option<string>)

  /** What the front-matter parser returns for a file: `{ data, content }`. */
  datatype Parsed = Parsed(data: FrontMatter, content: string)

  /** One name of the directory listing; `parsed` is `None` when reading the
      file or parsing it throws. */
  datatype DirEntry = DirEntry(fileName: string, parsed: Option<Parsed>)

  /** The blog directory: missing, present but not listable, or listed. */
  datatype BlogDir = Missing | Unlistable | Listed(entries: seq<DirEntry>)

  /** The record built for one markdown file. */
  datatype Post = Post(id: Number, title: string, subtitle: string, description: string,
                       slug: string, content: string)

  predicate EndsWith(s: string, suffix: string) {
    |suffix| <= |s| && s[|s| - |suffix|..] == suffix
  }

  /** The position of the first `sep` in `s`, or `|s|` when there is none. */
  function IndexOf(s: string, sep: char): (n: nat)
    ensures n <= |s|
    ensures forall i :: 0 <= i < n ==> s[i] != sep
    ensures n == |s| || s[n] == sep
  {
    if s == [] then 0 else if s[0] == sep then 0 else 1 + IndexOf(s[1..], sep)
  }

  /** The pieces joined back together, with `sep` between neighbours. */
  function Join(pieces: seq<string>, sep: char): string
    requires |pieces| >= 1
  {
    if |pieces| == 1 then pieces[0] else pieces[0] + [sep] + Join(pieces[1..], sep)
  }

  /** `s.split(sep)` for a one-character separator: the pieces between the
      occurrences of `sep`, so never an empty list. */
  function Split(s: string, sep: char): (pieces: seq<string>)
    ensures |pieces| >= 1
    ensures forall k :: 0 <= k < |pieces| ==> forall i :: 0 <= i < |pieces[k]| ==> pieces[k][i] != sep
    ensures Join(pieces, sep) == s
    decreases |s|
  {
    var n := IndexOf(s, sep);
    if n == |s| then [s]
    else
      assert s == s[..n] + [sep] + s[n + 1..];
      [s[..n]] + Split(s[n + 1..], sep)
  }

  /** Splitting is the inverse of joining pieces that do not hold the
      separator. */
  lemma {:induction false} SplitJoin(pieces: seq<string>, sep: char)
    requires |pieces| >= 1
    requires forall k :: 0 <= k < |pieces| ==> forall i :: 0 <= i < |pieces[k]| ==> pieces[k][i] != sep
    ensures Split(Join(pieces, sep), sep) == pieces
    decreases |pieces|
  {
    var p := pieces[0];
    if |pieces| == 1 {
      assert IndexOf(p, sep) == |p|;
    } else {
      var tail := Join(pieces[1..], sep);
      var s := p + [sep] + tail;
      assert s[|p|] == sep;
      assert forall i :: 0 <= i < |p| ==> s[i] == p[i];
      assert IndexOf(s, sep) == |p|;
      assert s[..|p|] == p && s[|p| + 1..] == tail;
      SplitJoin(pieces[1..], sep);
    }
  }

  /** `.replace(/-/g, " ")`. */
  function HyphensToSpaces(s: string): (r: string)
    ensures |r| == |s|
    ensures forall i :: 0 <= i < |s| ==> r[i] == (if s[i] == '-' then ' ' else s[i])
  {
    if s == [] then [] else [if s[0] == '-' then ' ' else s[0]] + HyphensToSpaces(s[1..])
  }

  /** `parseInt(fileName.split(".")[0])`. */
  function PostId(fileName: string): Number {
    ParseInt(Split(fileName, '.')[0])
  }

  /** `fileName.split(".")[1]?.replace(/-/g, " ") || "Guide"`: the second
      dot-separated piece with hyphens read as spaces, or "Guide" when there
      is no second piece or it is empty. */
  function Subtitle(fileName: string): (r: string)
    ensures r != []
    ensures var pieces := Split(fileName, '.');
            (|pieces| >= 2 && pieces[1] != [] ==> r == HyphensToSpaces(pieces[1]))
            && (|pieces| < 2 || pieces[1] == [] ==> r == "Guide")
  {
    var pieces := Split(fileName, '.');
    if |pieces| >= 2 && pieces[1] != [] then HyphensToSpaces(pieces[1]) else "Guide"
  }

  /** `fileName.replace(/\.md$/, "")`: the name without a final `.md`. */
  function SlugOf(fileName: string): (r: string)
    ensures EndsWith(fileName, ".md") ==> r + ".md" == fileName
    ensures !EndsWith(fileName, ".md") ==> r == fileName
  {
    if EndsWith(fileName, ".md") then fileName[..|fileName| - 3] else fileName
  }

  /** `value || fallback` for a front-matter string. */
  function OrElse(value: Option<string>, fallback: string): (r: string)
    ensures value.Some? && value.value != [] ==> r == value.value
    ensures value.None? || value.value == [] ==> r == fallback
  {
    if value.Some? && value.value != [] then value.value else fallback
  }

  /** The record the loader builds for the file `fileName` whose parse gave
      `p` (the colour is not part of this model). */
  function ToPost(fileName: string, p: Parsed): Post {
    Post(PostId(fileName), OrElse(p.data.title, "Untitled"), Subtitle(fileName),
         OrElse(p.data.description, ""), SlugOf(fileName), p.content)
  }

  /** `fileNames.filter((fileName) => fileName.endsWith(".md"))`. */
  function KeepMarkdown(es: seq<DirEntry>): (r: seq<DirEntry>)
    ensures |r| <= |es|
    ensures forall e :: e in r <==> e in es && EndsWith(e.fileName, ".md")
  {
    if es == [] then []
    else (if EndsWith(es[0].fileName, ".md") then [es[0]] else []) + KeepMarkdown(es[1..])
  }

  /** The filter works entry by entry: filtering a listing is filtering
      its parts, in order. */
  lemma {:induction false} KeepMarkdownConcat(a: seq<DirEntry>, b: seq<DirEntry>)
    ensures KeepMarkdown(a + b) == KeepMarkdown(a) + KeepMarkdown(b)
    decreases |a|
  {
    if a == [] {
      assert a + b == b;
    } else {
      assert (a + b)[1..] == a[1..] + b;
      KeepMarkdownConcat(a[1..], b);
    }
  }

  /** The `map` step: the record of every entry in order, or `None` when
      reading or parsing any of them throws. */
  function BuildPosts(es: seq<DirEntry>): (r: Option<seq<Post>>)
    ensures r.Some? <==> forall i :: 0 <= i < |es| ==> es[i].parsed.Some?
    ensures r.Some? ==> |r.value| == |es|
    ensures r.Some? ==> forall i :: 0 <= i < |es| ==> r.value[i] == ToPost(es[i].fileName, es[i].parsed.value)
  {
    if es == [] then Some([])
    else match (es[0].parsed, BuildPosts(es[1..]))
      case (Some(p), Some(rest)) => Some([ToPost(es[0].fileName, p)] + rest)
      case _ => None
  }

  /** The comparator `(a, b) => a.id - b.id` as `sort` reads its result: a
      NaN result counts as 0. */
  function Compare(a: Post, b: Post): int {
    if a.id.Some? && b.id.Some? then a.id.value - b.id.value else 0
  }

  /** Insert `x` before the first element it does not compare above. */
  function Insert(x: Post, s: seq<Post>): (r: seq<Post>)
    ensures multiset(r) == multiset(s) + multiset{x}
  {
    if s == [] || Compare(x, s[0]) <= 0 then [x] + s
    else
      assert s == [s[0]] + s[1..];
      [s[0]] + Insert(x, s[1..])
  }

  /** `.sort((a, b) => a.id - b.id)`: a stable insertion sort under
      Compare. */
  function SortById(s: seq<Post>): (r: seq<Post>)
    ensures multiset(r) == multiset(s)
  {
    if s == [] then []
    else
      assert s == [s[0]] + s[1..];
      Insert(s[0], SortById(s[1..]))
  }

  predicate AllNumeric(s: seq<Post>) {
    forall i :: 0 <= i < |s| ==> s[i].id.Some?
  }

  /** Ascending by id. */
  predicate SortedById(s: seq<Post>)
    requires AllNumeric(s)
  {
    forall i, j :: 0 <= i < j < |s| ==> s[i].id.value <= s[j].id.value
  }

  /** The posts with id `n`, in order. */
  function WithId(s: seq<Post>, n: Number): (r: seq<Post>)
    ensures |r| <= |s|
  {
    if s == [] then []
    else (if s[0].id == n then [s[0]] else []) + WithId(s[1..], n)
  }

  /** Some markdown entry of the listing cannot be read or parsed. */
  predicate SomeMarkdownFails(es: seq<DirEntry>) {
    exists e :: e in es && EndsWith(e.fileName, ".md") && e.parsed.None?
  }

  /** `getAllPostsSync()`: the empty list when the directory is missing,
      cannot be listed or any markdown file cannot be read or parsed;
      otherwise the records of the markdown files, each exactly once,
      sorted by id. */
  function LoadPosts(dir: BlogDir): (r: seq<Post>)
    ensures !dir.Listed? ==> r == []
    ensures dir.Listed? && SomeMarkdownFails(dir.entries) ==> r == []
    ensures dir.Listed? && !SomeMarkdownFails(dir.entries) ==>
              |r| == |KeepMarkdown(dir.entries)|
              && forall i :: 0 <= i < |r| ==>
                   exists e :: e in dir.entries && EndsWith(e.fileName, ".md") && e.parsed.Some?
                               && r[i] == ToPost(e.fileName, e.parsed.value)
    ensures dir.Listed? && !SomeMarkdownFails(dir.entries) ==>
              BuildPosts(KeepMarkdown(dir.entries)).Some?
              && multiset(r) == multiset(BuildPosts(KeepMarkdown(dir.entries)).value)
  {
    match dir
    case Missing => []
    case Unlistable => []
    case Listed(es) =>
      BuildFailsExactly(es);
      match BuildPosts(KeepMarkdown(es))
      case None => []
      case Some(posts) =>
        SortedFromListing(es, posts);
        SortById(posts)
  }

  /** Building the records fails exactly when some markdown entry of the
      listing cannot be read or parsed. */
  lemma BuildFailsExactly(es: seq<DirEntry>)
    ensures BuildPosts(KeepMarkdown(es)).None? <==> SomeMarkdownFails(es)
  {
    var md := KeepMarkdown(es);
    if BuildPosts(md).None? {
      var i :| 0 <= i < |md| && md[i].parsed.None?;
      assert md[i] in es;
    }
    if SomeMarkdownFails(es) {
      var e :| e in es && EndsWith(e.fileName, ".md") && e.parsed.None?;
      assert e in md;
      var i :| 0 <= i < |md| && md[i] == e;
      assert md[i].parsed.None?;
    }
  }

  /** The sorted records are those built for the markdown entries, each
      as often as it was built, and each comes from one of the entries. */
  lemma SortedFromListing(es: seq<DirEntry>, posts: seq<Post>)
    requires BuildPosts(KeepMarkdown(es)) == Some(posts)
    ensures |SortById(posts)| == |KeepMarkdown(es)|
    ensures multiset(SortById(posts)) == multiset(posts)
    ensures forall i :: 0 <= i < |SortById(posts)| ==>
              exists e :: e in es && EndsWith(e.fileName, ".md") && e.parsed.Some?
                          && SortById(posts)[i] == ToPost(e.fileName, e.parsed.value)
  {
    var md := KeepMarkdown(es);
    var r := SortById(posts);
    SortRearranges(posts);
    forall i | 0 <= i < |r|
      ensures exists e :: e in es && EndsWith(e.fileName, ".md") && e.parsed.Some?
                          && r[i] == ToPost(e.fileName, e.parsed.value)
    {
      var j := SourceOf(posts, r[i]);
      var e := md[j];
      assert e in md;
      assert e in es && EndsWith(e.fileName, ".md") && e.parsed.Some?;
      assert r[i] == ToPost(e.fileName, e.parsed.value);
    }
  }

  /** Sorting keeps the length and takes every element from the input. */
  lemma SortRearranges(s: seq<Post>)
    ensures |SortById(s)| == |s|
    ensures forall x :: x in SortById(s) ==> x in s
  {
    var r := SortById(s);
    assert |multiset(r)| == |multiset(s)|;
    forall x | x in r
      ensures x in s
    {
      assert x in multiset(r);
    }
  }

  /** The position of an element in a sequence. */
  lemma SourceOf(s: seq<Post>, x: Post) returns (j: nat)
    requires x in s
    ensures j < |s| && s[j] == x
  {
    j :| 0 <= j < |s| && s[j] == x;
  }

  /** `posts.find((post) => post.id.toString() === key)`. */
  function FindPost(posts: seq<Post>, key: string): (r: Option<Post>)
    ensures r.None? <==> forall i :: 0 <= i < |posts| ==> Show(posts[i].id) != key
    ensures r.Some? ==> exists i :: 0 <= i < |posts| && posts[i] == r.value && Show(posts[i].id) == key
                                    && forall j :: 0 <= j < i ==> Show(posts[j].id) != key
  {
    if posts == [] then None
    else if Show(posts[0].id) == key then Some(posts[0])
    else
      var r := FindPost(posts[1..], key);
      assert forall i :: 1 <= i < |posts| ==> posts[i] == posts[1..][i - 1];
      r
  }

  /** `getPostByIdSync(key)`. */
  function GetPostById(dir: BlogDir, key: string): Option<Post> {
    FindPost(LoadPosts(dir), key)
  }

  /** Inserting a post whose id is at least `b` into posts whose ids are
      at least `b` gives posts whose ids are at least `b`. */
  lemma {:induction false} InsertBounded(x: Post, s: seq<Post>, b: int)
    requires x.id.Some? && b <= x.id.value
    requires forall i :: 0 <= i < |s| ==> s[i].id.Some? && b <= s[i].id.value
    ensures forall i :: 0 <= i < |Insert(x, s)| ==> Insert(x, s)[i].id.Some? && b <= Insert(x, s)[i].id.value
    decreases |s|
  {
    if s != [] && Compare(x, s[0]) > 0 {
      InsertBounded(x, s[1..], b);
      var t := Insert(x, s[1..]);
      assert forall i :: 1 <= i < |t| + 1 ==> ([s[0]] + t)[i] == t[i - 1];
    } else {
      assert forall i :: 1 <= i < |s| + 1 ==> ([x] + s)[i] == s[i - 1];
    }
  }

  /** Inserting into a sorted list keeps it sorted. */
  lemma {:induction false} InsertSorted(x: Post, s: seq<Post>)
    requires x.id.Some? && AllNumeric(s) && SortedById(s)
    ensures AllNumeric(Insert(x, s)) && SortedById(Insert(x, s))
    decreases |s|
  {
    if s != [] && Compare(x, s[0]) > 0 {
      InsertSorted(x, s[1..]);
      InsertBounded(x, s[1..], s[0].id.value);
      var t := Insert(x, s[1..]);
      assert forall i :: 1 <= i < |t| + 1 ==> ([s[0]] + t)[i] == t[i - 1];
    } else {
      assert forall i :: 1 <= i < |s| + 1 ==> ([x] + s)[i] == s[i - 1];
    }
  }

  /** With every id a number the comparator is consistent, and the result
      is in ascending order of id. */
  lemma {:induction false} SortSorted(s: seq<Post>)
    requires AllNumeric(s)
    ensures AllNumeric(SortById(s)) && SortedById(SortById(s))
    decreases |s|
  {
    if s != [] {
      SortSorted(s[1..]);
      InsertSorted(s[0], SortById(s[1..]));
    }
  }

  /** Insertion places `x` ahead of every element with its own id. */
  lemma {:induction false} InsertWithId(x: Post, s: seq<Post>, n: Number)
    ensures WithId(Insert(x, s), n) == (if x.id == n then [x] else []) + WithId(s, n)
    decreases |s|
  {
    if s == [] || Compare(x, s[0]) <= 0 {
      assert ([x] + s)[1..] == s;
    } else {
      InsertWithId(x, s[1..], n);
      var t := Insert(x, s[1..]);
      assert ([s[0]] + t)[1..] == t;
      assert s[0].id != x.id;
      if s[0].id == n {
        assert WithId(t, n) == WithId(s[1..], n);
        assert WithId(Insert(x, s), n) == [s[0]] + WithId(s[1..], n);
      } else {
        assert WithId(Insert(x, s), n) == WithId(t, n);
      }
    }
  }

  /** Stability: the posts that share an id keep their order of the
      listing (the program's order when every id is numeric). */
  lemma {:induction false} SortStable(s: seq<Post>, n: Number)
    ensures WithId(SortById(s), n) == WithId(s, n)
    decreases |s|
  {
    if s != [] {
      SortStable(s[1..], n);
      InsertWithId(s[0], SortById(s[1..]), n);
    }
  }

  /** The first post with id `n`. */
  function FirstWithId(s: seq<Post>, n: Number): (r: Option<Post>)
    ensures r.None? <==> forall i :: 0 <= i < |s| ==> s[i].id != n
    ensures r.Some? ==> r.value.id == n
  {
    if s == [] then None
    else if s[0].id == n then Some(s[0])
    else
      assert forall i :: 1 <= i < |s| ==> s[i] == s[1..][i - 1];
      FirstWithId(s[1..], n)
  }

  /** The post found for `String(n)` is the first one whose id is `n`. */
  lemma {:induction false} FindById(s: seq<Post>, n: Number)
    ensures FindPost(s, Show(n)) == FirstWithId(s, n)
    decreases |s|
  {
    if s != [] {
      if s[0].id != n {
        if Show(s[0].id) == Show(n) {
          ShowInjective(s[0].id, n);
        }
        FindById(s[1..], n);
      }
    }
  }

  /** The first post with id `n` is the first of the posts with id `n`. */
  lemma {:induction false} FirstWithIdIsHeadOfWithId(s: seq<Post>, n: Number)
    ensures FirstWithId(s, n) == (if WithId(s, n) == [] then None else Some(WithId(s, n)[0]))
    decreases |s|
  {
    if s != [] {
      FirstWithIdIsHeadOfWithId(s[1..], n);
      if s[0].id != n {
        assert WithId(s, n) == WithId(s[1..], n);
      }
    }
  }

  /** `getPostByIdSync(String(n))` returns the record of the first markdown
      file in listing order whose id is `n` (sorting never moves it behind
      another file with the same id), and nothing when no file has that id;
      with the key "NaN" that is the first file whose id is NaN. This is the
      program's result when every id is numeric; otherwise JavaScript leaves
      the sort order to the engine and this is the model's order. */
  lemma GetPostByIdFirstInListing(es: seq<DirEntry>, n: Number)
    requires !SomeMarkdownFails(es)
    ensures BuildPosts(KeepMarkdown(es)).Some?
    ensures GetPostById(Listed(es), Show(n)) == FirstWithId(BuildPosts(KeepMarkdown(es)).value, n)
  {
    var md := KeepMarkdown(es);
    forall i | 0 <= i < |md|
      ensures md[i].parsed.Some?
    {
      assert md[i] in es;
    }
    var posts := BuildPosts(md).value;
    FindById(SortById(posts), n);
    FirstWithIdIsHeadOfWithId(SortById(posts), n);
    FirstWithIdIsHeadOfWithId(posts, n);
    SortStable(posts, n);
  }

  /** A key with a leading zero, such as "01", finds nothing, even when a
      file `01.name.md` has id 1: numbers never print with one. */
  lemma LeadingZeroKeyMisses(posts: seq<Post>, key: string)
    requires |key| >= 2 && key[0] == '0'
    ensures FindPost(posts, key).None?
  {
    forall i | 0 <= i < |posts|
      ensures Show(posts[i].id) != key
    {
    }
  }

  /** A file named with a zero-padded number, such as `01.intro.md`, gets
      the number's value as its id (1), which prints without the padding,
      so the key "01" does not find it. */
  lemma ZeroPaddedName(prefix: string, words: string)
    requires |prefix| >= 2 && prefix[0] == '0' && AllDigits(prefix)
    requires forall i :: 0 <= i < |words| ==> words[i] != '.'
    ensures PostId(prefix + "." + words + ".md") == Some(DigitsValue(prefix))
    ensures Show(PostId(prefix + "." + words + ".md")) != prefix
  {
    assert forall i :: 0 <= i < |prefix| ==> prefix[i] != '.';
    FileNameFields(prefix, words);
    PaddedNumeral(prefix);
  }

  lemma PaddedNumeral(d: string)
    requires |d| >= 2 && d[0] == '0' && AllDigits(d)
    ensures ParseInt(d) == Some(DigitsValue(d))
    ensures Show(Some(DigitsValue(d))) != d
  {
    assert d + [] == d;
    ParseLeadingDigits(d, []);
    assert !Canonical(d);
  }

  /** A file whose name starts with a canonical decimal numeral before its
      first dot gets that number as its id, and printing the id gives the
      numeral back: such a post is found by its own prefix. */
  lemma IdOfNumberedName(fileName: string, p: Parsed)
    requires Canonical(Split(fileName, '.')[0])
    ensures var prefix := Split(fileName, '.')[0];
            && ToPost(fileName, p).id == Some(DigitsValue(prefix))
            && Show(ToPost(fileName, p).id) == prefix
  {
    var prefix := Split(fileName, '.')[0];
    assert prefix + [] == prefix;
    ParseLeadingDigits(prefix, []);
    ShowOfCanonical(prefix);
  }

  /** The slug of a loaded post gives its file name back. */
  lemma SlugRoundTrip(es: seq<DirEntry>, i: nat)
    requires !SomeMarkdownFails(es) && i < |LoadPosts(Listed(es))|
    ensures exists e :: e in es && SlugOf(e.fileName) + ".md" == e.fileName
                        && LoadPosts(Listed(es))[i].slug == SlugOf(e.fileName)
  {
  }

  /** With a numeric id for every markdown file, the loaded list is in
      ascending order of id. */
  lemma LoadPostsSorted(es: seq<DirEntry>)
    requires !SomeMarkdownFails(es)
    requires forall e :: e in es && EndsWith(e.fileName, ".md") ==> PostId(e.fileName).Some?
    ensures AllNumeric(LoadPosts(Listed(es))) && SortedById(LoadPosts(Listed(es)))
  {
    var md := KeepMarkdown(es);
    BuildFailsExactly(es);
    var posts := BuildPosts(md).value;
    forall i | 0 <= i < |posts|
      ensures posts[i].id.Some?
    {
      assert md[i] in md;
    }
    SortSorted(posts);
  }

  /** A file named `<prefix>.<words>.md`, such as "1.example-post1.md", with
      no dot in the prefix or the words: its id is `parseInt` of the prefix,
      its subtitle the words with hyphens read as spaces ("example post1")
      unless the words are empty, and its slug the name without ".md". */
  lemma FileNameFields(prefix: string, words: string)
    requires forall i :: 0 <= i < |prefix| ==> prefix[i] != '.'
    requires forall i :: 0 <= i < |words| ==> words[i] != '.'
    ensures PostId(prefix + "." + words + ".md") == ParseInt(prefix)
    ensures words != [] ==> Subtitle(prefix + "." + words + ".md") == HyphensToSpaces(words)
    ensures words == [] ==> Subtitle(prefix + "." + words + ".md") == "Guide"
    ensures SlugOf(prefix + "." + words + ".md") == prefix + "." + words
  {
    SplitOfName(prefix, words);
    SlugOfName(prefix + "." + words);
  }

  lemma SlugOfName(stem: string)
    ensures SlugOf(stem + ".md") == stem
  {
    assert (stem + ".md")[..|stem|] == stem;
  }

  lemma SplitOfName(prefix: string, words: string)
    requires forall i :: 0 <= i < |prefix| ==> prefix[i] != '.'
    requires forall i :: 0 <= i < |words| ==> words[i] != '.'
    ensures Split(prefix + "." + words + ".md", '.') == [prefix, words, "md"]
  {
    NameOfPieces(prefix, words);
    PiecesWithoutDot(prefix, words);
    SplitJoin([prefix, words, "md"], '.');
  }

  lemma NameOfPieces(prefix: string, words: string)
    ensures Join([prefix, words, "md"], '.') == prefix + "." + words + ".md"
  {
    var pieces := [prefix, words, "md"];
    assert pieces[1..][1..] == ["md"];
    assert Join(pieces[1..], '.') == words + "." + "md";
  }

  lemma PiecesWithoutDot(prefix: string, words: string)
    requires forall i :: 0 <= i < |prefix| ==> prefix[i] != '.'
    requires forall i :: 0 <= i < |words| ==> words[i] != '.'
    ensures forall k :: 0 <= k < |[prefix, words, "md"]| ==>
              forall i :: 0 <= i < |[prefix, words, "md"][k]| ==> [prefix, words, "md"][k][i] != '.'
  {
    var pieces := [prefix, words, "md"];
    forall k | 0 <= k < |pieces|
      ensures forall i :: 0 <= i < |pieces[k]| ==> pieces[k][i] != '.'
    {
      if k == 2 {
        assert pieces[k] == "md";
      }
    }
  }
}
