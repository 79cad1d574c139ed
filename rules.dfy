/** The rules corpus: slugs, excerpts, the sorted rule list, its filters, the lookup by
    slug and the category and tag counts (src/lib/rules.ts). The rule files are given as
    a list, each already split by the frontmatter parser into its fields and its body. */
module Rules {
  import opened Wrappers
  import opened Text
  import opened Seqs

  datatype Difficulty = Beginner | Intermediate | Advanced

  /** `RuleFrontmatter` as parsed. An absent `slug` or `title` is the empty string, which
      JavaScript treats as false just as it treats `undefined`. */
  datatype RuleFrontmatter = RuleFrontmatter(
    title: string,
    slug: string,
    version: string,
    created: string,
    updated: Option<string>,
    author: Option<string>,
    email: Option<string>,
    tags: Option<seq<string>>,
    category: Option<seq<string>>,
    difficulty: Option<Difficulty>,
    featured: Option<bool>)

  /** One markdown file of the rules directory: its path relative to that directory,
      its full path, its frontmatter and its body. */
  datatype RuleFile = RuleFile(relativePath: string, fullPath: string, frontmatter: RuleFrontmatter, content: string)

  datatype RuleListItem = RuleListItem(
    title: string,
    slug: string,
    excerpt: string,
    tags: seq<string>,
    category: seq<string>,
    author: Option<string>,
    created: string,
    difficulty: Option<Difficulty>,
    featured: Option<bool>)

  /** `Rule`: the frontmatter (with the resolved slug), the body, its excerpt and the path. */
  datatype Rule = Rule(frontmatter: RuleFrontmatter, content: string, excerpt: string, filePath: string)

  /** The corpus: the markdown files in directory-walk order, the markdown-stripping
      regular-expression chain of `createExcerpt`, and the millisecond time that
      `new Date(created).getTime()` gives. */
  datatype Corpus = Corpus(files: seq<RuleFile>, stripMarkdown: string -> string, timeOf: string -> int)

  /** `s.replace(/\.md$/, '')` */
  function StripMd(s: string): (r: string)
    ensures EndsWith(s, ".md") ==> s == r + ".md"
    ensures !EndsWith(s, ".md") ==> r == s
  {
    if EndsWith(s, ".md") then s[..|s| - 3] else s
  }

  /** `getSlugFromPath`: a trailing `.md` dropped, then every backslash turned into `/`. */
  function SlugFromPath(relativePath: string): (r: string)
    ensures '\\' !in r
    ensures |r| == if EndsWith(relativePath, ".md") then |relativePath| - 3 else |relativePath|
    ensures forall i :: 0 <= i < |r| ==> r[i] == if relativePath[i] == '\\' then '/' else relativePath[i]
  {
    ReplaceChar(StripMd(relativePath), '\\', '/')
  }

  /** The slug of `name.md` is `name` with backslashes as slashes. */
  lemma SlugOfMarkdownFile(name: string)
    ensures SlugFromPath(name + ".md") == ReplaceChar(name, '\\', '/')
  {
    assert EndsWith(name + ".md", ".md") by { assert (name + ".md")[|name|..] == ".md"; }
    assert StripMd(name + ".md") == name;
  }

  /** The text `createExcerpt` starts from: the stripped markdown with newlines as spaces,
      trimmed. */
  function PlainText(content: string, stripMarkdown: string -> string): (r: string)
    ensures '\n' !in r
    ensures r == [] || (!IsSpace(r[0]) && !IsSpace(r[|r| - 1]))
  {
    var flat := ReplaceChar(stripMarkdown(content), '\n', ' ');
    TrimIntroducesNothing(flat, '\n');
    Trim(flat)
  }

  /** The truncation of `createExcerpt`: text within the limit is kept, longer text is cut
      to `maxLength` characters followed by `...`. */
  function Truncate(text: string, maxLength: nat): (r: string)
    ensures |text| <= maxLength ==> r == text
    ensures |text| > maxLength ==> |r| == maxLength + 3 && StartsWith(r, text[..maxLength]) && EndsWith(r, "...")
    ensures |r| <= maxLength + 3
    ensures forall ch :: ch in r ==> ch in text || ch == '.'
  {
    if |text| > maxLength then text[..maxLength] + "..." else text
  }

  /** `createExcerpt(content, maxLength = 200)` */
  function CreateExcerpt(content: string, stripMarkdown: string -> string, maxLength: nat := 200): (r: string)
    ensures |r| <= maxLength + 3
    ensures '\n' !in r
  {
    var plain := PlainText(content, stripMarkdown);
    Truncate(plain, maxLength)
  }

  /** `frontmatter.slug || getSlugFromPath(filePath)` */
  function RuleSlug(f: RuleFile): (r: string)
    ensures f.frontmatter.slug != "" ==> r == f.frontmatter.slug
    ensures f.frontmatter.slug == "" ==> r == SlugFromPath(f.relativePath)
  {
    if f.frontmatter.slug != "" then f.frontmatter.slug else SlugFromPath(f.relativePath)
  }

  /** The list entry `getAllRules` builds for one file. */
  function ToListItem(f: RuleFile, stripMarkdown: string -> string): (r: RuleListItem)
    ensures r.slug == RuleSlug(f) && r.title == f.frontmatter.title && r.created == f.frontmatter.created
    ensures r.tags == f.frontmatter.tags.GetOr([]) && r.category == f.frontmatter.category.GetOr([])
    ensures r.featured == f.frontmatter.featured
  {
    var fm := f.frontmatter;
    RuleListItem(
      fm.title, RuleSlug(f), CreateExcerpt(f.content, stripMarkdown), fm.tags.GetOr([]),
      fm.category.GetOr([]), fm.author, fm.created, fm.difficulty, fm.featured)
  }

  /** The sort key `new Date(created).getTime()`. */
  function CreatedTime(timeOf: string -> int): RuleListItem -> int {
    (item: RuleListItem) => timeOf(item.created)
  }

  function ListItems(c: Corpus): (r: seq<RuleListItem>)
    ensures |r| == |c.files|
    ensures forall i :: 0 <= i < |r| ==> r[i] == ToListItem(c.files[i], c.stripMarkdown)
  {
    seq(|c.files|, i requires 0 <= i < |c.files| => ToListItem(c.files[i], c.stripMarkdown))
  }

  /** `getAllRules`: one entry per file, newest first by creation time. */
  function AllRules(c: Corpus): (r: seq<RuleListItem>)
    ensures multiset(r) == multiset(ListItems(c))
    ensures |r| == |c.files|
    ensures SortedDesc(r, CreatedTime(c.timeOf))
    ensures forall t :: Filter(r, KeyIs(CreatedTime(c.timeOf), t)) == Filter(ListItems(c), KeyIs(CreatedTime(c.timeOf), t))
  {
    forall t ensures Filter(SortDesc(ListItems(c), CreatedTime(c.timeOf)), KeyIs(CreatedTime(c.timeOf), t)) == Filter(ListItems(c), KeyIs(CreatedTime(c.timeOf), t)) {
      SortDescStable(ListItems(c), CreatedTime(c.timeOf), t);
    }
    SortDesc(ListItems(c), CreatedTime(c.timeOf))
  }

  /** Every file of the corpus has its entry in the rule list. */
  lemma AllRulesListsEveryFile(c: Corpus, i: nat)
    requires i < |c.files|
    ensures ToListItem(c.files[i], c.stripMarkdown) in AllRules(c)
  {
    var items := ListItems(c);
    assert items[i] in multiset(items);
  }

  /** `name` equals one of `names` when both are lower-cased. */
  predicate HasNameIgnoringCase(names: seq<string>, name: string) {
    exists k | 0 <= k < |names| :: Lower(names[k]) == Lower(name)
  }

  function InCategory(category: string): RuleListItem -> bool {
    (item: RuleListItem) => HasNameIgnoringCase(item.category, category)
  }

  function HasTag(tag: string): RuleListItem -> bool {
    (item: RuleListItem) => HasNameIgnoringCase(item.tags, tag)
  }

  /** `getRulesByCategory`: exactly the rules with a case-insensitively equal category,
      in list order. */
  function RulesByCategory(c: Corpus, category: string): (r: seq<RuleListItem>)
    ensures IsSubsequence(r, AllRules(c))
    ensures forall x :: x in r <==> x in AllRules(c) && HasNameIgnoringCase(x.category, category)
  {
    Filter(AllRules(c), InCategory(category))
  }

  /** `getRulesByTag`: exactly the rules with a case-insensitively equal tag, in list order. */
  function RulesByTag(c: Corpus, tag: string): (r: seq<RuleListItem>)
    ensures IsSubsequence(r, AllRules(c))
    ensures forall x :: x in r <==> x in AllRules(c) && HasNameIgnoringCase(x.tags, tag)
  {
    Filter(AllRules(c), HasTag(tag))
  }

  /** Asking for a category or tag in any letter case gives the same rules. */
  lemma FiltersIgnoreCase(c: Corpus, name: string)
    ensures RulesByCategory(c, Lower(name)) == RulesByCategory(c, name)
    ensures RulesByTag(c, Lower(name)) == RulesByTag(c, name)
  {
    LowerIdempotent(name);
    var all := AllRules(c);
    FilterAgree(all, InCategory(Lower(name)), InCategory(name));
    FilterAgree(all, HasTag(Lower(name)), HasTag(name));
  }

  function IsFeatured(): RuleListItem -> bool {
    (item: RuleListItem) => item.featured == Some(true)
  }

  /** `getFeaturedRules`: the rules whose `featured` is `true`, in list order. */
  function FeaturedRules(c: Corpus): (r: seq<RuleListItem>)
    ensures IsSubsequence(r, AllRules(c))
    ensures forall x :: x in r <==> x in AllRules(c) && x.featured == Some(true)
  {
    Filter(AllRules(c), IsFeatured())
  }

  /** The `Rule` `getRuleBySlug` returns for a matching file. */
  function ToRule(f: RuleFile, stripMarkdown: string -> string): (r: Rule)
    ensures r.frontmatter.slug == RuleSlug(f) && r.content == f.content && r.filePath == f.fullPath
  {
    Rule(f.frontmatter.(slug := RuleSlug(f)), f.content, CreateExcerpt(f.content, stripMarkdown), f.fullPath)
  }

  /** `getRuleBySlug`: the first file, in walk order, whose slug is `slug`, or `None`. */
  method GetRuleBySlug(c: Corpus, slug: string) returns (r: Option<Rule>)
    ensures r.None? <==> forall i :: 0 <= i < |c.files| ==> RuleSlug(c.files[i]) != slug
    ensures r.Some? ==> exists i :: (0 <= i < |c.files| && RuleSlug(c.files[i]) == slug
      && r.value == ToRule(c.files[i], c.stripMarkdown)
      && forall j :: 0 <= j < i ==> RuleSlug(c.files[j]) != slug)
  {
    var i := 0;
    while i < |c.files|
      invariant 0 <= i <= |c.files|
      invariant forall j :: 0 <= j < i ==> RuleSlug(c.files[j]) != slug
    {
      var f := c.files[i];
      var ruleSlug := if f.frontmatter.slug != "" then f.frontmatter.slug else SlugFromPath(f.relativePath);
      if ruleSlug == slug {
        return Some(Rule(f.frontmatter.(slug := ruleSlug), f.content, CreateExcerpt(f.content, c.stripMarkdown), f.fullPath));
      }
      i := i + 1;
    }
    return None;
  }

  /** A name and the number of rules' entries that carry it. */
  datatype NameCount = NameCount(name: string, count: int)

  function CountOf(e: NameCount): int {
    e.count
  }

  /** Occurrences of `name` across all the lists. */
  function Occurrences(lists: seq<seq<string>>, name: string): nat {
    if lists == [] then 0 else Occurrences(lists[..|lists| - 1], name) + Count(lists[|lists| - 1], name)
  }

  /** All the lists' names one after the other. */
  function Flatten(lists: seq<seq<string>>): seq<string> {
    if lists == [] then [] else Flatten(lists[..|lists| - 1]) + lists[|lists| - 1]
  }

  /** One entry per name, in order of first occurrence across the lists, with its number
      of occurrences: the entries of the `Map` once every list is counted. */
  function Tally(lists: seq<seq<string>>): (r: seq<NameCount>)
    ensures |r| == |AppendNew([], Flatten(lists))|
    ensures forall k :: 0 <= k < |r| ==> r[k] == NameCount(AppendNew([], Flatten(lists))[k], Occurrences(lists, AppendNew([], Flatten(lists))[k]))
  {
    var order := AppendNew([], Flatten(lists));
    seq(|order|, k requires 0 <= k < |order| => NameCount(order[k], Occurrences(lists, order[k])))
  }

  /** The counting of `getAllCategories`/`getAllTags`: a `Map` from name to count filled
      list by list, entry by entry, then its entries sorted by count, largest first. Each
      name that occurs is listed once, with its number of occurrences. */
  method CountNames(lists: seq<seq<string>>) returns (r: seq<NameCount>)
    ensures forall k :: 0 <= k < |r| ==> r[k].count == Occurrences(lists, r[k].name) > 0
    ensures forall name :: Occurrences(lists, name) > 0 ==> exists k :: 0 <= k < |r| && r[k].name == name
    ensures forall k, l :: 0 <= k < l < |r| ==> r[k].name != r[l].name
    ensures SortedDesc(r, CountOf)
    ensures forall n :: Filter(r, KeyIs(CountOf, n)) == Filter(Tally(lists), KeyIs(CountOf, n))
  {
    var counts: map<string, nat> := map[];
    var order: seq<string> := [];
    var i := 0;
    while i < |lists|
      invariant 0 <= i <= |lists|
      invariant forall n :: n in counts <==> Occurrences(lists[..i], n) > 0
      invariant forall n :: n in counts ==> counts[n] == Occurrences(lists[..i], n)
      invariant Distinct(order) && forall n :: n in order <==> n in counts
      invariant order == AppendNew([], Flatten(lists[..i]))
    {
      counts, order := CountList(counts, order, lists[..i], lists[i]);
      assert lists[..i + 1][..i] == lists[..i];
      assert Flatten(lists[..i + 1]) == Flatten(lists[..i]) + lists[i];
      AppendNewAppend([], Flatten(lists[..i]), lists[i]);
      i := i + 1;
    }
    assert lists[..i] == lists;
    TallyEntries(lists, counts, order);
    r := SortedCounts(counts, order);
  }

  /** Once every list is counted, the `Map`'s entries are the tally of the lists. */
  lemma TallyEntries(lists: seq<seq<string>>, counts: map<string, nat>, order: seq<string>)
    requires forall n :: n in counts ==> counts[n] == Occurrences(lists, n)
    requires forall n :: n in order ==> n in counts
    requires order == AppendNew([], Flatten(lists))
    ensures Entries(counts, order) == Tally(lists)
  {
  }

  /** The inner loop of the counting: adds one list's names to the counts, appending each
      name seen for the first time to the insertion order of the `Map`. */
  method CountList(counts0: map<string, nat>, order0: seq<string>, done: seq<seq<string>>, list: seq<string>)
    returns (counts: map<string, nat>, order: seq<string>)
    requires forall n :: n in counts0 <==> Occurrences(done, n) > 0
    requires forall n :: n in counts0 ==> counts0[n] == Occurrences(done, n)
    requires Distinct(order0) && forall n :: n in order0 <==> n in counts0
    ensures forall n :: n in counts <==> Occurrences(done + [list], n) > 0
    ensures forall n :: n in counts ==> counts[n] == Occurrences(done + [list], n)
    ensures Distinct(order) && forall n :: n in order <==> n in counts
    ensures order == AppendNew(order0, list)
  {
    counts, order := counts0, order0;
    var j := 0;
    while j < |list|
      invariant 0 <= j <= |list|
      invariant forall n :: n in counts <==> Occurrences(done, n) + Count(list[..j], n) > 0
      invariant forall n :: n in counts ==> counts[n] == Occurrences(done, n) + Count(list[..j], n)
      invariant Distinct(order) && forall n :: n in order <==> n in counts
      invariant order == AppendNew(order0, list[..j])
    {
      var name := list[j];
      var count := if name in counts then counts[name] else 0;
      if name !in counts {
        AppendFresh(order, name);
        order := order + [name];
      }
      counts := counts[name := count + 1];
      assert list[..j + 1][..j] == list[..j];
      j := j + 1;
    }
    assert list[..j] == list;
    assert (done + [list])[..|done|] == done;
  }

  /** `Array.from(map.entries())`: one entry per name, in insertion order. */
  function Entries(counts: map<string, nat>, order: seq<string>): (r: seq<NameCount>)
    requires forall n :: n in order ==> n in counts
    ensures |r| == |order|
    ensures forall k :: 0 <= k < |r| ==> r[k] == NameCount(order[k], counts[order[k]])
  {
    seq(|order|, k requires 0 <= k < |order| => NameCount(order[k], counts[order[k]]))
  }

  /** `Array.from(map.entries()).sort((a, b) => b.count - a.count)`: one entry per name
      of the map, in non-increasing order of count. */
  function SortedCounts(counts: map<string, nat>, order: seq<string>): (r: seq<NameCount>)
    requires Distinct(order) && forall n :: n in order <==> n in counts
    ensures forall k :: 0 <= k < |r| ==> r[k].name in counts && r[k].count == counts[r[k].name]
    ensures forall n :: n in counts ==> exists k :: 0 <= k < |r| && r[k].name == n
    ensures forall k, l :: 0 <= k < l < |r| ==> r[k].name != r[l].name
    ensures SortedDesc(r, CountOf)
    ensures forall n :: Filter(r, KeyIs(CountOf, n)) == Filter(Entries(counts, order), KeyIs(CountOf, n))
  {
    SortedEntries(counts, order);
    forall n ensures Filter(SortDesc(Entries(counts, order), CountOf), KeyIs(CountOf, n)) == Filter(Entries(counts, order), KeyIs(CountOf, n)) {
      SortDescStable(Entries(counts, order), CountOf, n);
    }
    SortDesc(Entries(counts, order), CountOf)
  }

  lemma SortedEntries(counts: map<string, nat>, order: seq<string>)
    requires Distinct(order) && forall n :: n in order <==> n in counts
    ensures var r := SortDesc(Entries(counts, order), CountOf);
      && (forall k :: 0 <= k < |r| ==> r[k].name in counts && r[k].count == counts[r[k].name])
      && (forall n :: n in counts ==> exists k :: 0 <= k < |r| && r[k].name == n)
      && (forall k, l :: 0 <= k < l < |r| ==> r[k].name != r[l].name)
  {
    var entries := Entries(counts, order);
    var r := SortDesc(entries, CountOf);
    PermutationMembers(entries, r);
    assert Distinct(entries) by {
      forall k, l | 0 <= k < l < |entries| ensures entries[k] != entries[l] {
        assert entries[k].name == order[k] && entries[l].name == order[l];
      }
    }
    DistinctPermutation(entries, r);
    assert forall k :: 0 <= k < |r| ==> r[k] in entries;
    forall n | n in counts ensures exists k :: 0 <= k < |r| && r[k].name == n {
      var m :| 0 <= m < |order| && order[m] == n;
      assert entries[m] in r;
      var k :| 0 <= k < |r| && r[k] == entries[m];
    }
  }

  lemma AppendFresh(order: seq<string>, name: string)
    requires Distinct(order) && name !in order
    ensures Distinct(order + [name])
  {
    forall k, l | 0 <= k < l < |order| + 1 ensures (order + [name])[k] != (order + [name])[l] {
      assert (order + [name])[k] == order[k];
      if l < |order| {
        assert (order + [name])[l] == order[l];
      }
    }
  }

  /** The category lists of the rules, in list order. */
  function CategoryLists(c: Corpus): (r: seq<seq<string>>)
    ensures |r| == |AllRules(c)|
  {
    var all := AllRules(c);
    seq(|all|, i requires 0 <= i < |all| => all[i].category)
  }

  function TagLists(c: Corpus): (r: seq<seq<string>>)
    ensures |r| == |AllRules(c)|
  {
    var all := AllRules(c);
    seq(|all|, i requires 0 <= i < |all| => all[i].tags)
  }

  /** `getAllCategories` */
  method AllCategories(c: Corpus) returns (r: seq<NameCount>)
    ensures forall k :: 0 <= k < |r| ==> r[k].count == Occurrences(CategoryLists(c), r[k].name) > 0
    ensures forall name :: Occurrences(CategoryLists(c), name) > 0 ==> exists k :: 0 <= k < |r| && r[k].name == name
    ensures forall k, l :: 0 <= k < l < |r| ==> r[k].name != r[l].name
    ensures SortedDesc(r, CountOf)
    ensures forall n :: Filter(r, KeyIs(CountOf, n)) == Filter(Tally(CategoryLists(c)), KeyIs(CountOf, n))
  {
    r := CountNames(CategoryLists(c));
  }

  /** `getAllTags` */
  method AllTags(c: Corpus) returns (r: seq<NameCount>)
    ensures forall k :: 0 <= k < |r| ==> r[k].count == Occurrences(TagLists(c), r[k].name) > 0
    ensures forall name :: Occurrences(TagLists(c), name) > 0 ==> exists k :: 0 <= k < |r| && r[k].name == name
    ensures forall k, l :: 0 <= k < l < |r| ==> r[k].name != r[l].name
    ensures SortedDesc(r, CountOf)
    ensures forall n :: Filter(r, KeyIs(CountOf, n)) == Filter(Tally(TagLists(c)), KeyIs(CountOf, n))
  {
    r := CountNames(TagLists(c));
  }
}
