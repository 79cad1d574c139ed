/** The build step that writes the client search index (scripts/build-search-index.js):
    one record per readable rule file, with defaults for missing fields and a short
    whitespace-collapsed excerpt. */
module SearchIndex {
  import opened Wrappers
  import opened Text
  import opened Seqs
  import opened Yaml
  import Rules

  /** Only plain spaces as white space, never two side by side. */
  predicate Collapsed(s: string) {
    && (forall i :: 0 <= i < |s| && IsSpace(s[i]) ==> s[i] == ' ')
    && (forall i :: 0 <= i < |s| - 1 ==> !(IsSpace(s[i]) && IsSpace(s[i + 1])))
  }

  /** `s.replace(/\n/g, ' ').replace(/\s+/g, ' ')` */
  function CollapseSpace(s: string): (r: string)
    ensures |r| <= |s|
    ensures Collapsed(r)
  {
    ReplaceRuns(ReplaceChar(s, '\n', ' '), IsSpace, ' ')
  }

  /** A character other than white space splits the text: it is kept between what the
      text before it and the text after it become. */
  lemma CollapseSpaceAround(a: string, c: char, b: string)
    requires !IsSpace(c)
    ensures CollapseSpace(a + [c] + b) == CollapseSpace(a) + [c] + CollapseSpace(b)
  {
    assert IsSpace('\n') by { assert '\n' in SpaceChars; }
    ReplaceCharAround(a, c, b, '\n', ' ');
    ReplaceRunsAround(ReplaceChar(a, '\n', ' '), c, ReplaceChar(b, '\n', ' '), IsSpace, ' ');
  }

  lemma ReplaceCharAround(a: string, c: char, b: string, from: char, to: char)
    requires c != from
    ensures ReplaceChar(a + [c] + b, from, to) == ReplaceChar(a, from, to) + [c] + ReplaceChar(b, from, to)
  {
    var r := ReplaceChar(a, from, to) + [c] + ReplaceChar(b, from, to);
    assert forall i :: 0 <= i < |a + [c] + b| ==> ReplaceChar(a + [c] + b, from, to)[i] == r[i];
  }

  /** A non-empty run of white space, newlines included, becomes one space. */
  lemma CollapseSpaceRun(t: string)
    requires t != [] && forall i :: 0 <= i < |t| ==> IsSpace(t[i])
    ensures CollapseSpace(t) == " "
  {
    assert IsSpace(' ') by { assert ' ' in SpaceChars; }
    ReplaceRunsRun(ReplaceChar(t, '\n', ' '), IsSpace, ' ');
  }

  /** A collapsed text holds no newline. */
  lemma CollapsedHasNoNewline(s: string)
    requires Collapsed(s)
    ensures '\n' !in s
  {
    assert IsSpace('\n') by { assert '\n' in SpaceChars; }
    assert forall i :: 0 <= i < |s| ==> s[i] != '\n';
  }

  /** Trimming keeps a collapsed text collapsed. */
  lemma TrimKeepsCollapsed(s: string)
    requires Collapsed(s)
    ensures Collapsed(Trim(s))
  {
    var t := Trim(s);
    var a := TrimOffset(s);
    assert a + |t| <= |s| && t == s[a..a + |t|];
    CollapsedSlice(s, a, a + |t|);
  }

  lemma CollapsedSlice(s: string, a: nat, b: nat)
    requires a <= b <= |s| && Collapsed(s)
    ensures Collapsed(s[a..b])
  {
    assert forall i :: 0 <= i < b - a ==> s[a..b][i] == s[a + i];
  }

  /** `body.substring(0, 200).replace(/\n/g, ' ').replace(/\s+/g, ' ').trim()`: at most 200
      characters, no newline, only plain spaces as white space, never two of them side by
      side, and none at either end. */
  function IndexExcerpt(body: string): (r: string)
    ensures |r| <= 200
    ensures Collapsed(r)
    ensures '\n' !in r
    ensures r == [] || (!IsSpace(r[0]) && !IsSpace(r[|r| - 1]))
  {
    var head := if |body| <= 200 then body else body[..200];
    var collapsed := CollapseSpace(head);
    TrimKeepsCollapsed(collapsed);
    CollapsedHasNoNewline(Trim(collapsed));
    Trim(collapsed)
  }

  /** A search-index record as the script writes it. Fields copied from the frontmatter
      keep their parsed value; `Undefined` ones are left out of the JSON. */
  datatype IndexEntry = IndexEntry(
    title: Value,
    slug: Value,
    category: Value,
    tags: Value,
    author: Value,
    excerpt: string,
    path: Value,
    difficulty: Value,
    created: Value)

  /** The slug: the frontmatter's when set, otherwise the one derived from the path
      relative to the rules directory. */
  function IndexSlug(relativePath: string, data: Frontmatter): (r: Value)
    ensures Truthy(Lookup(data, "slug")) ==> r == Lookup(data, "slug")
    ensures !Truthy(Lookup(data, "slug")) ==> r == Str(Rules.SlugFromPath(relativePath))
  {
    Or(Lookup(data, "slug"), Str(Rules.SlugFromPath(relativePath)))
  }

  /** The record for one file. `path` repeats the slug; title, category, tags and author
      always hold a set value, the defaults being `Untitled`, `[]`, `[]` and `Anonymous`. */
  function IndexRecord(relativePath: string, data: Frontmatter, body: string): (e: IndexEntry)
    ensures e.path == e.slug == IndexSlug(relativePath, data)
    ensures Truthy(e.title) && Truthy(e.category) && Truthy(e.tags) && Truthy(e.author)
    ensures !Truthy(Lookup(data, "title")) ==> e.title == Str("Untitled")
    ensures !Truthy(Lookup(data, "author")) ==> e.author == Str("Anonymous")
    ensures !Truthy(Lookup(data, "category")) ==> e.category == List([])
    ensures !Truthy(Lookup(data, "tags")) ==> e.tags == List([])
    ensures |e.excerpt| <= 200
  {
    var slug := IndexSlug(relativePath, data);
    IndexEntry(
      Or(Lookup(data, "title"), Str("Untitled")),
      slug,
      Or(Lookup(data, "category"), List([])),
      Or(Lookup(data, "tags"), List([])),
      Or(Lookup(data, "author"), Str("Anonymous")),
      IndexExcerpt(body),
      slug,
      Lookup(data, "difficulty"),
      Lookup(data, "created"))
  }

  /** A file the parser read: its frontmatter and body. */
  datatype ParsedFile = ParsedFile(data: Frontmatter, body: string)

  /** One markdown file found by the walk: its path relative to the rules directory, and
      what the parser made of it, `None` where reading or parsing threw. */
  datatype IndexSource = IndexSource(relativePath: string, parsed: Option<ParsedFile>)

  function IsParsed(): IndexSource -> bool {
    (s: IndexSource) => s.parsed.Some?
  }

  function RecordOf(s: IndexSource): IndexEntry
    requires s.parsed.Some?
  {
    IndexRecord(s.relativePath, s.parsed.value.data, s.parsed.value.body)
  }

  /** `RecordOf` as a function value, defined on the files the parser read. */
  function Record(): IndexSource --> IndexEntry {
    (s: IndexSource) requires s.parsed.Some? => RecordOf(s)
  }

  /** The records for the readable files among `files`, in walk order. */
  function Records(files: seq<IndexSource>): seq<IndexEntry> {
    MapKept(files, IsParsed(), Record())
  }

  /** The records are exactly those of the files the parser read, one each, in order. */
  lemma RecordsOfReadFiles(files: seq<IndexSource>)
    ensures |Records(files)| == |Filter(files, IsParsed())|
    ensures forall k :: 0 <= k < |Records(files)| ==> Records(files)[k] == RecordOf(Filter(files, IsParsed())[k])
  {
    MapKeptIsMapOfFilter(files, IsParsed(), Record());
  }

  lemma RecordsStep(files: seq<IndexSource>, i: nat)
    requires i < |files|
    ensures Records(files[..i + 1])
      == Records(files[..i]) + (if files[i].parsed.Some? then [RecordOf(files[i])] else [])
  {
    assert files[..i + 1][..i] == files[..i];
  }

  /** `getAllRules` of the index script, over the files the directory walk finds (`None`
      when the rules directory does not exist): one record per readable file, in walk
      order; files that throw are skipped. */
  method BuildIndex(dir: Option<seq<IndexSource>>) returns (index: seq<IndexEntry>)
    ensures dir.None? ==> index == []
    ensures dir.Some? ==> index == Records(dir.value)
  {
    index := [];
    if dir.None? {
      return;
    }
    var files := dir.value;
    var i := 0;
    while i < |files|
      invariant 0 <= i <= |files|
      invariant index == Records(files[..i])
    {
      var file := files[i];
      RecordsStep(files, i);
      if file.parsed.Some? {
        index := index + [RecordOf(file)];
      }
      i := i + 1;
    }
    assert files[..i] == files;
  }
}
