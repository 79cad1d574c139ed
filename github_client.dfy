/** The pull-request client of the submit page (src/lib/github.ts): the slug, branch,
    path and markdown it derives from the form, the fixed order of its calls to the
    repository, and the environment gate that decides whether a client exists. */
module GitHubClient {
  import opened Wrappers
  import opened Text
  import opened GitRemote
  import Rules
  import opened Yaml

  /** The form values `submitRule` receives. */
  datatype PRParams = PRParams(
    title: string,
    content: string,
    category: seq<string>,
    tags: seq<string>,
    difficulty: string,
    author: string)

  /** The class `[^a-z0-9]`. */
  function NotSlugChar(): char -> bool {
    (c: char) => !IsLowerAlnum(c)
  }

  /** Lower-case ASCII letters, digits and hyphens, never two hyphens side by side. */
  predicate SlugChars(s: string) {
    && (forall i :: 0 <= i < |s| ==> IsLowerAlnum(s[i]) || s[i] == '-')
    && (forall i :: 0 <= i < |s| - 1 ==> !(s[i] == '-' && s[i + 1] == '-'))
  }

  /** A slug: `SlugChars`, and no hyphen at either end. */
  predicate IsSlug(s: string) {
    SlugChars(s) && (s != [] ==> s[0] != '-' && s[|s| - 1] != '-')
  }

  lemma SlugCharsSlice(s: string, a: nat, b: nat)
    requires a <= b <= |s| && SlugChars(s)
    ensures SlugChars(s[a..b])
  {
    assert forall i :: 0 <= i < b - a ==> s[a..b][i] == s[a + i];
  }

  /** `s.replace(/^-|-$/g, '')`: one hyphen dropped at each end where there is one. */
  function DropEdgeDashes(s: string): (r: string)
    ensures s == (if s != [] && s[0] == '-' then "-" else "") + r + (if |s| > 1 && s[|s| - 1] == '-' then "-" else "")
    ensures SlugChars(s) ==> IsSlug(r)
    ensures forall c :: c in r ==> c in s
    ensures s != [] && s[0] != '-' && s[|s| - 1] != '-' ==> r == s
  {
    var a := if s != [] && s[0] == '-' then 1 else 0;
    var b := if |s| > a && s[|s| - 1] == '-' then |s| - 1 else |s|;
    EdgeSlice(s, a, b);
    assert s == s[..a] + s[a..b] + s[b..];
    s[a..b]
  }

  lemma EdgeSlice(s: string, a: nat, b: nat)
    requires a <= b <= |s|
    requires a == if s != [] && s[0] == '-' then 1 else 0
    requires b == if |s| > a && s[|s| - 1] == '-' then |s| - 1 else |s|
    ensures SlugChars(s) ==> IsSlug(s[a..b])
    ensures forall c :: c in s[a..b] ==> c in s
  {
    var r := s[a..b];
    if SlugChars(s) {
      SlugCharsSlice(s, a, b);
      assert r != [] ==> r[0] == s[a] && r[|r| - 1] == s[b - 1];
    }
    assert forall i :: 0 <= i < |r| ==> r[i] == s[a + i];
  }

  /** `title.toLowerCase().replace(/[^a-z0-9]+/g, '-')`: lower case, and every run of
      characters other than `a`-`z` and `0`-`9` one hyphen. */
  function DashRuns(title: string): (r: string)
    ensures SlugChars(r)
  {
    var runs := ReplaceRuns(Lower(title), NotSlugChar(), '-');
    assert forall i :: 0 <= i < |runs| && NotSlugChar()(runs[i]) ==> runs[i] == '-';
    runs
  }

  /** A letter or digit of the title splits it: it is kept, lower-cased, between what
      the text before it and the text after it become. */
  lemma DashRunsAround(a: string, c: char, b: string)
    requires IsLowerAlnum(LowerChar(c))
    ensures DashRuns(a + [c] + b) == DashRuns(a) + [LowerChar(c)] + DashRuns(b)
  {
    LowerAround(a, c, b);
    ReplaceRunsAround(Lower(a), LowerChar(c), Lower(b), NotSlugChar(), '-');
  }

  /** A non-empty run without letters or digits becomes one hyphen. */
  lemma DashRunsRun(t: string)
    requires t != [] && forall i :: 0 <= i < |t| ==> !IsLowerAlnum(LowerChar(t[i]))
    ensures DashRuns(t) == "-"
  {
    ReplaceRunsRun(Lower(t), NotSlugChar(), '-');
  }

  /** The slug: `DashRuns` with a leading and a trailing hyphen dropped. It is a slug, and
      every letter and digit in it comes from the lower-cased title. */
  function TitleSlug(title: string): (r: string)
    ensures IsSlug(r)
    ensures forall c :: c in r && c != '-' ==> c in Lower(title)
  {
    DropEdgeDashes(DashRuns(title))
  }

  /** Two words of letters and digits around any separator without them give the words
      joined by one hyphen. */
  lemma TitleSlugWords(w1: string, sep: string, w2: string)
    requires w1 != [] && w2 != [] && sep != []
    requires forall i :: 0 <= i < |w1| ==> IsLowerAlnum(w1[i])
    requires forall i :: 0 <= i < |w2| ==> IsLowerAlnum(w2[i])
    requires forall i :: 0 <= i < |sep| ==> !IsLowerAlnum(LowerChar(sep[i]))
    ensures TitleSlug(w1 + sep + w2) == w1 + "-" + w2
  {
    Assoc(w1, sep, w2);
    DashRunsAfterWord(w1, sep + w2);
    DashRunsBeforeWord(sep, w2);
    DashRunsRun(sep);
    Assoc(w1, "-", w2);
    var r := w1 + "-" + w2;
    assert r[0] == w1[0] && r[|r| - 1] == w2[|w2| - 1];
  }

  /** A word of letters and digits at the front is kept as it is. */
  lemma DashRunsAfterWord(w: string, y: string)
    requires w != [] && forall i :: 0 <= i < |w| ==> IsLowerAlnum(w[i])
    ensures DashRuns(w + y) == w + DashRuns(y)
  {
    var a, c := w[..|w| - 1], w[|w| - 1];
    assert w == a + [c];
    DashRunsAround(a, c, y);
    DashRunsFixed(a);
  }

  /** A word of letters and digits at the end is kept as it is. */
  lemma DashRunsBeforeWord(x: string, w: string)
    requires w != [] && forall i :: 0 <= i < |w| ==> IsLowerAlnum(w[i])
    ensures DashRuns(x + w) == DashRuns(x) + w
  {
    var d, b := w[0], w[1..];
    assert w == [d] + b;
    Assoc(x, [d], b);
    DashRunsAround(x, d, b);
    DashRunsFixed(b);
    Assoc(DashRuns(x), [d], b);
  }

  /** Letters and digits already in lower case are kept as they are. */
  lemma DashRunsFixed(w: string)
    requires forall i :: 0 <= i < |w| ==> IsLowerAlnum(w[i])
    ensures DashRuns(w) == w
  {
    assert Lower(w) == w by {
      assert forall i :: 0 <= i < |w| ==> LowerChar(w[i]) == w[i];
    }
  }

  /** A slug is its own slug. */
  lemma TitleSlugFixed(s: string)
    requires IsSlug(s)
    ensures TitleSlug(s) == s
  {
    assert Lower(s) == s by {
      assert forall i :: 0 <= i < |s| ==> LowerChar(s[i]) == s[i];
    }
    ReplaceRunsFixed(s, NotSlugChar(), '-');
  }

  /** Deriving the slug twice changes nothing more. */
  lemma TitleSlugIdempotent(title: string)
    ensures TitleSlug(TitleSlug(title)) == TitleSlug(title)
  {
    TitleSlugFixed(TitleSlug(title));
  }

  /** `rule/${slug}-${timestamp}` with `timestamp = Date.now()`. */
  function BranchName(slug: string, timestamp: nat): string {
    Stamped("rule/" + slug, timestamp)
  }

  /** Different slugs or times give different branches. */
  lemma BranchNameInjective(slug1: string, t1: nat, slug2: string, t2: nat)
    requires BranchName(slug1, t1) == BranchName(slug2, t2)
    ensures slug1 == slug2 && t1 == t2
  {
    StampedReadBack("rule/" + slug1, t1);
    StampedReadBack("rule/" + slug2, t2);
    assert "rule/" + slug1 + "-" == "rule/" + slug2 + "-";
    assert slug1 == ("rule/" + slug1 + "-")[5..|slug1| + 5];
    assert slug2 == ("rule/" + slug2 + "-")[5..|slug2| + 5];
  }

  /** The slug written into the frontmatter: `${category}/${slug}`. */
  function FrontmatterSlug(category0: string, slug: string): string {
    Lower(category0) + "/" + slug
  }

  /** `rules/${category}/${slug}.md`, with `category = params.category[0].toLowerCase()`. */
  function FilePath(category0: string, slug: string): (r: string)
    ensures r == "rules/" + FrontmatterSlug(category0, slug) + ".md"
  {
    "rules/" + Lower(category0) + "/" + slug + ".md"
  }

  /** The corpus, reading the new file from the rules directory, derives from its path
      the very slug its frontmatter states. */
  lemma FilePathGivesFrontmatterSlug(category0: string, slug: string)
    requires '\\' !in category0 && '\\' !in slug
    ensures Rules.SlugFromPath(FilePath(category0, slug)[|"rules/"|..]) == FrontmatterSlug(category0, slug)
  {
    var name := FrontmatterSlug(category0, slug);
    assert FilePath(category0, slug)[|"rules/"|..] == name + ".md";
    Rules.SlugOfMarkdownFile(name);
    assert '\\' !in Lower(category0) by {
      assert forall i :: 0 <= i < |category0| ==> Lower(category0)[i] == LowerChar(category0[i]);
    }
    assert forall i :: 0 <= i < |name| ==> name[i] != '\\';
    assert ReplaceChar(name, '\\', '/') == name;
  }

  /** The lines of the frontmatter block `submitRule` writes, `today` being the date part
      of `new Date().toISOString()`. */
  function FrontmatterLines(p: PRParams, category: string, slug: string, today: string): (r: seq<string>)
    ensures |r| == 10 && r[0] == "---" && r[9] == "---"
    ensures r[2] == "slug: \"" + category + "/" + slug + "\""
  {
    [ "---",
      "title: \"" + p.title + "\"",
      "slug: \"" + category + "/" + slug + "\"",
      "version: \"1.0.0\"",
      "created: \"" + today + "\"",
      "author: \"" + p.author + "\"",
      "tags: " + QuotedList(p.tags),
      "category: " + QuotedList(p.category),
      "difficulty: " + p.difficulty,
      "---" ]
  }

  /** The markdown file: the frontmatter block, an empty line, then the content. */
  function RuleMarkdown(p: PRParams, category: string, slug: string, today: string): string {
    Join(FrontmatterLines(p, category, slug, today), "\n") + "\n\n" + p.content
  }

  /** No value of the form holds a line break. */
  predicate SingleLine(p: PRParams, category: string, slug: string, today: string) {
    && '\n' !in p.title && '\n' !in p.author && '\n' !in p.difficulty
    && '\n' !in category && '\n' !in slug && '\n' !in today
    && (forall i :: 0 <= i < |p.tags| ==> '\n' !in p.tags[i])
    && (forall i :: 0 <= i < |p.category| ==> '\n' !in p.category[i])
  }

  /** When the form values are single lines, the markdown starts with the frontmatter
      block and the content, and that block splits back into its lines: the delimiters
      and the `slug` line come out as written. */
  lemma MarkdownFrontmatterReadsBack(p: PRParams, category: string, slug: string, today: string)
    requires SingleLine(p, category, slug, today)
    ensures var block := Join(FrontmatterLines(p, category, slug, today), "\n");
      && RuleMarkdown(p, category, slug, today) == block + "\n\n" + p.content
      && Split(block, '\n') == FrontmatterLines(p, category, slug, today)
  {
    var lines := FrontmatterLines(p, category, slug, today);
    QuotedListSingleLine(p.tags);
    QuotedListSingleLine(p.category);
    assert forall i :: 0 <= i < |lines| ==> '\n' !in lines[i];
    SplitJoin(lines, '\n');
  }

  /** The lines of the pull-request description `submitRule` writes. */
  function PRBodyLines(p: PRParams, filePath: string): (lines: seq<string>)
    ensures |lines| == 19 && lines[0] == "## 새 규칙 제출" && lines[9] == "- `" + filePath + "`"
  {
    [ "## 새 규칙 제출",
      "",
      "**제목**: " + p.title,
      "**카테고리**: " + Join(p.category, ", "),
      "**태그**: " + Join(p.tags, ", "),
      "**난이도**: " + p.difficulty,
      "**작성자**: " + p.author,
      "",
      "### 파일:",
      "- `" + filePath + "`",
      "",
      "### 체크리스트",
      "- [ ] 제목이 명확하고 설명적인가?",
      "- [ ] 내용이 최소 50자 이상인가?",
      "- [ ] 코드 예시가 포함되어 있는가?",
      "- [ ] 카테고리와 태그가 적절한가?",
      "",
      "---",
      "*이 PR은 자동으로 생성되었습니다.*" ]
  }

  /** The pull-request description `submitRule` writes: its lines joined by newlines. */
  function PRBody(p: PRParams, filePath: string): (r: string)
    ensures StartsWith(r, "## 새 규칙 제출\n")
    ensures Contains(r, "- `" + filePath + "`")
  {
    var lines := PRBodyLines(p, filePath);
    assert lines == [lines[0]] + lines[1..];
    JoinCons(lines[0], lines[1..], "\n");
    Assoc(lines[0], "\n", Join(lines[1..], "\n"));
    Extended(lines[0] + "\n", Join(lines[1..], "\n"), "");
    JoinContains(lines, "\n", 9);
    Join(lines, "\n")
  }

  /** With single-line values, the description splits back into the lines of the
      template: the heading, the five fields, the file line and the checklist. */
  lemma PRBodyReadsBack(p: PRParams, filePath: string)
    requires '\n' !in p.title && '\n' !in p.author && '\n' !in p.difficulty && '\n' !in filePath
    requires forall i :: 0 <= i < |p.tags| ==> '\n' !in p.tags[i]
    requires forall i :: 0 <= i < |p.category| ==> '\n' !in p.category[i]
    ensures Split(PRBody(p, filePath), '\n') == PRBodyLines(p, filePath)
  {
    var lines := PRBodyLines(p, filePath);
    JoinAvoids(p.category, ", ", '\n');
    JoinAvoids(p.tags, ", ", '\n');
    assert forall i :: 0 <= i < |lines| ==> '\n' !in lines[i];
    SplitJoin(lines, '\n');
  }

  /** What `submitRule` writes when the category list is not empty: the file's path and
      text, the commit message, and the pull request's title and description. */
  datatype RuleFile = RuleFile(path: string, markdown: string, message: string, prTitle: string, prBody: string)

  /** The branch `submitRule` creates and the file it then writes, `None` when
      `params.category[0]` is `undefined`, whose `toLowerCase()` throws. */
  datatype Submission = Submission(branch: string, file: Option<RuleFile>)

  function SubmissionOf(p: PRParams, timestamp: nat, today: string): (s: Submission)
    ensures s.file.None? <==> p.category == []
  {
    var slug := TitleSlug(p.title);
    var branch := BranchName(slug, timestamp);
    if p.category == [] then Submission(branch, None)
    else
      var category := Lower(p.category[0]);
      var path := FilePath(p.category[0], slug);
      Submission(branch, Some(RuleFile(path, RuleMarkdown(p, category, slug, today),
        "Add rule: " + p.title, "\U{1F4DD} Add rule: " + p.title, PRBody(p, path))))
  }

  /** What reading `params.category[0].toLowerCase()` throws when the list is empty. */
  const UndefinedCategory := Error("TypeError: Cannot read properties of undefined (reading 'toLowerCase')")

  /** The calls made for submission `s` when the main branch is at `sha`: read the main
      SHA, create the branch from it, write the file on that branch, open the pull request
      from that branch into `main`. */
  function SubmissionCalls(s: Submission, sha: string): (r: seq<Call>)
    ensures |r| == if s.file.Some? then 4 else 2
  {
    var start := [Call.GetMainBranchSha, Call.CreateBranch(s.branch, sha)];
    match s.file
    case None => start
    case Some(f) =>
      start + [Call.PutFile(f.path, f.markdown, f.message, s.branch, None),
        Call.CreatePullRequest(f.prTitle, s.branch, "main", f.prBody)]
  }

  /** `GitHubAPIClient`: the repository `owner/repo` reached with `token`. */
  class GitHubApiClient {
    const owner: string
    const repo: string
    const token: string
    const remote: Remote

    constructor(owner: string, repo: string, token: string, remote: Remote)
      ensures this.owner == owner && this.repo == repo && this.token == token && this.remote == remote
    {
      this.owner := owner;
      this.repo := repo;
      this.token := token;
      this.remote := remote;
    }

    /** `submitRule`, given the clock's `Date.now()` and date part: `Publish` of what it
        derives from `p`; an empty category list makes it fail. */
    method SubmitRule(p: PRParams, timestamp: nat, today: string) returns (r: Result<PullRequest>)
      modifies remote
      ensures var t0 := old(remote.trace);
        var s := SubmissionOf(p, timestamp, today);
        var run := RunOf(remote.respond, t0, SubmissionCalls(s, MainShaAt(remote.respond, t0 + [Call.GetMainBranchSha])));
        && remote.trace == t0 + run.made
        && r == Passed(run, if s.file.None? then Failure(UndefinedCategory) else PullRequestOf(remote.respond(remote.trace)))
      ensures p.category == [] ==> r.Failure?
    {
      var submission := SubmissionOf(p, timestamp, today);
      r := Publish(submission);
    }

    /** The calls of `submitRule` once its strings are derived, each awaited before the
        next: the repository receives the plan up to the first call it refuses, and the
        result is that call's error, the `TypeError` of reading the missing category
        once the branch exists, or the pull request the last call answered. */
    method Publish(s: Submission) returns (r: Result<PullRequest>)
      modifies remote
      ensures var t0 := old(remote.trace);
        var run := RunOf(remote.respond, t0, SubmissionCalls(s, MainShaAt(remote.respond, t0 + [Call.GetMainBranchSha])));
        && remote.trace == t0 + run.made
        && r == Passed(run, if s.file.None? then Failure(UndefinedCategory) else PullRequestOf(remote.respond(remote.trace)))
    {
      ghost var t0 := remote.trace;
      var mainSha := remote.GetMainBranchSha();
      ghost var plan := SubmissionCalls(s, MainShaAt(remote.respond, remote.trace));
      assert remote.trace == t0 + plan[..1];
      RunStep(remote.respond, t0, plan, 0);
      if mainSha.Failure? {
        RunHalts(remote.respond, t0, plan, 1);
        return Failure(mainSha.error);
      }
      var created := remote.CreateBranch(s.branch, mainSha.value);
      assert remote.trace == t0 + plan[..2];
      RunStep(remote.respond, t0, plan, 1);
      if created.Failure? {
        RunHalts(remote.respond, t0, plan, 2);
        return Failure(created.error);
      }
      if s.file.None? {
        assert plan[..2] == plan;
        return Failure(UndefinedCategory);
      }
      var file := s.file.value;
      var written := remote.PutFile(file.path, file.markdown, file.message, s.branch, None);
      assert remote.trace == t0 + plan[..3];
      RunStep(remote.respond, t0, plan, 2);
      if written.Failure? {
        RunHalts(remote.respond, t0, plan, 3);
        return Failure(written.error);
      }
      r := remote.CreatePullRequest(file.prTitle, s.branch, "main", file.prBody);
      assert remote.trace == t0 + plan[..4];
      RunStep(remote.respond, t0, plan, 3);
      assert plan[..4] == plan;
    }
  }

  /** The environment variables `createGitHubClient` reads; `None` is an unset variable. */
  datatype Env = Env(
    publicToken: Option<string>,
    serverToken: Option<string>,
    owner: Option<string>,
    repo: Option<string>)

  /** A variable that is set to a non-empty value, which `||` treats as true. */
  predicate IsSet(v: Option<string>) {
    v.Some? && v.value != ""
  }

  /** `v || fallback` */
  function EnvOr(v: Option<string>, fallback: string): (r: string)
    ensures IsSet(v) ==> r == v.value
    ensures !IsSet(v) ==> r == fallback
  {
    if IsSet(v) then v.value else fallback
  }

  datatype ClientSettings = ClientSettings(owner: string, repo: string, token: string)

  /** What `createGitHubClient` builds its client from: nothing when neither token variable
      is set; otherwise the public token if set, else the server one, and the owner and
      repository defaulting to `depari` and `srules`. */
  function Settings(env: Env): (r: Option<ClientSettings>)
    ensures r.None? <==> !IsSet(env.publicToken) && !IsSet(env.serverToken)
    ensures r.Some? ==> r.value.token != ""
    ensures r.Some? ==> r.value.token == if IsSet(env.publicToken) then env.publicToken.value else env.serverToken.value
    ensures r.Some? ==> r.value.owner == EnvOr(env.owner, "depari") && r.value.repo == EnvOr(env.repo, "srules")
  {
    var token := if IsSet(env.publicToken) then env.publicToken.value else EnvOr(env.serverToken, "");
    if token == "" then None
    else Some(ClientSettings(EnvOr(env.owner, "depari"), EnvOr(env.repo, "srules"), token))
  }

  /** `createGitHubClient`: `null` exactly when neither token variable is set. */
  method CreateGitHubClient(env: Env, remote: Remote) returns (c: GitHubApiClient?)
    ensures c == null <==> !IsSet(env.publicToken) && !IsSet(env.serverToken)
    ensures c != null ==>
      fresh(c) && c.remote == remote && Settings(env) == Some(ClientSettings(c.owner, c.repo, c.token))
  {
    var settings := Settings(env);
    if settings.None? {
      return null;
    }
    c := new GitHubApiClient(settings.value.owner, settings.value.repo, settings.value.token, remote);
  }
}
