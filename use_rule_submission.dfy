/** The hooks behind the new-rule and edit form (src/hooks/useRuleSubmission.ts): the
    form's schema, the section templates the editor appends, and what `submitRule`
    derives from the form before it hands the rule to the submission service or falls
    back to a pre-filled GitHub issue. */
module RuleSubmissionHook {
  import opened Wrappers
  import opened Text
  import opened GitHubClient
  import RuleSubmission
  import GitRemote
  import ValidateRule
  import Rules

  /** The form values (`RuleFormData`); `tags` is the text typed into the tag box. The
      submit page's form has the same fields. */
  datatype RuleFormData = RuleFormData(
    title: string,
    category: seq<string>,
    tags: string,
    difficulty: RuleSubmission.Difficulty,
    author: string,
    content: string)

  /** The fields a schema bounds; `difficulty` is an enumeration and is bounded by its type. */
  datatype Field = Title | Category | Tags | Author | Content

  /** One schema violation: the field and the message shown under it. */
  datatype Issue = Issue(field: Field, message: string)

  /** Some issue is about field `f`. */
  predicate Flags(issues: seq<Issue>, f: Field) {
    exists i | 0 <= i < |issues| :: issues[i].field == f
  }

  /** The issue a failed check reports, none for a check that holds. */
  function Check(holds: bool, f: Field, message: string): (r: seq<Issue>)
    ensures forall g :: Flags(r, g) <==> !holds && g == f
  {
    assert !holds ==> [Issue(f, message)][0].field == f;
    if holds then [] else [Issue(f, message)]
  }

  lemma FlagsAppend(a: seq<Issue>, b: seq<Issue>)
    ensures forall f :: Flags(a + b, f) <==> Flags(a, f) || Flags(b, f)
  {
    forall f ensures Flags(a + b, f) <==> Flags(a, f) || Flags(b, f) {
      if Flags(a + b, f) {
        var i :| 0 <= i < |a + b| && (a + b)[i].field == f;
        if i >= |a| {
          assert b[i - |a|] == (a + b)[i];
        }
      }
      if Flags(b, f) {
        var i :| 0 <= i < |b| && b[i].field == f;
        assert (a + b)[|a| + i] == b[i];
      }
      if Flags(a, f) {
        var i :| 0 <= i < |a| && a[i].field == f;
        assert (a + b)[i] == a[i];
      }
    }
  }

  /** A list of issues is empty exactly when it flags no field. */
  lemma NoIssues(issues: seq<Issue>)
    ensures issues == [] <==> forall f :: !Flags(issues, f)
  {
    if issues != [] {
      assert Flags(issues, issues[0].field);
    }
  }

  /** The fields in the order a schema lists them. */
  const Fields: seq<Field> := [Title, Category, Tags, Author, Content]

  /** What a schema reports: one issue for each of `fields` that fails `meets`, in order. */
  function Issues(fields: seq<Field>, meets: Field -> bool, message: Field -> string): (r: seq<Issue>)
    ensures forall f :: Flags(r, f) <==> f in fields && !meets(f)
  {
    if fields == [] then []
    else
      var first := Check(meets(fields[0]), fields[0], message(fields[0]));
      var rest := Issues(fields[1..], meets, message);
      FlagsAppend(first, rest);
      assert forall f :: f in fields <==> f == fields[0] || f in fields[1..];
      first + rest
  }

  /** A schema over every field reports nothing exactly when every field meets it. */
  lemma NoSchemaIssues(meets: Field -> bool, message: Field -> string)
    ensures Issues(Fields, meets, message) == [] <==> forall f :: meets(f)
  {
    NoIssues(Issues(Fields, meets, message));
    forall f ensures f in Fields {
      match f
      case Title => assert Fields[0] == f;
      case Category => assert Fields[1] == f;
      case Tags => assert Fields[2] == f;
      case Author => assert Fields[3] == f;
      case Content => assert Fields[4] == f;
    }
  }

  /** The bound `ruleSchema` puts on each field. */
  predicate Meets(d: RuleFormData, f: Field) {
    match f
    case Title => |d.title| >= 5
    case Category => |d.category| >= 1
    case Tags => |d.tags| >= 2
    case Author => |d.author| >= 2
    case Content => |d.content| >= 50
  }

  function Message(f: Field): string {
    match f
    case Title => "제목은 최소 5자 이상이어야 합니다"
    case Category => "카테고리를 최소 1개 선택해주세요"
    case Tags => "태그를 입력해주세요 (쉼표로 구분)"
    case Author => "작성자 이름은 필수입니다"
    case Content => "규칙 내용은 최소 50자 이상이어야 합니다"
  }

  /** `ruleSchema` of the hook: an issue for each field that misses its bound, and none
      when every bound is met. */
  function SchemaIssues(d: RuleFormData): (r: seq<Issue>)
    ensures forall f :: Flags(r, f) <==> !Meets(d, f)
    ensures r == [] <==> forall f :: Meets(d, f)
  {
    NoSchemaIssues(f => Meets(d, f), Message);
    Issues(Fields, f => Meets(d, f), Message)
  }

  /** The two sections the editor can insert. */
  datatype Section = Overview | Example

  /** The heading whose presence the form checks for each section. */
  function Heading(s: Section): string {
    match s
    case Overview => ValidateRule.OverviewHeader
    case Example => ValidateRule.ExampleHeader
  }

  /** The text `insertSection` appends for a section: a newline, the section's heading,
      then placeholder text. */
  function SectionTemplate(s: Section): (t: string)
    ensures StartsWith(t, "\n")
    ensures Contains(t, Heading(s))
  {
    Framed3("\n", Heading(s), Placeholder(s));
    "\n" + Heading(s) + Placeholder(s)
  }

  function Placeholder(s: Section): string {
    match s
    case Overview => "\n\n이 규칙은 ...를 위한 것입니다.\n"
    case Example =>
      "\n\n" + "```typescript\n" + "// 좋은 예시\n" + "function good() {\n" + "  // ...\n" + "}\n" + "\n"
      + "// 좋지 않은 예시\n" + "function bad() {\n" + "  // ...\n" + "}\n" + "```\n"
  }

  /** `value || ''` */
  function OrEmpty(v: Option<string>): string {
    if v.Some? then v.value else ""
  }

  /** `hasOverview` / `hasExample`: the content is there and contains the heading. */
  predicate HasSection(contentValue: Option<string>, s: Section) {
    contentValue.Some? && Contains(contentValue.value, Heading(s))
  }

  /** `insertSection(type)`: the template is appended to the content, with no separator.
      The old content stays a prefix, the inserted section is then detected, and a section
      detected before still is. */
  function InsertSection(contentValue: Option<string>, s: Section): (r: string)
    ensures StartsWith(r, OrEmpty(contentValue))
    ensures |r| == |OrEmpty(contentValue)| + |SectionTemplate(s)|
    ensures r[|OrEmpty(contentValue)|..] == SectionTemplate(s)
    ensures HasSection(Some(r), s)
    ensures forall other :: HasSection(contentValue, other) ==> HasSection(Some(r), other)
  {
    var before := OrEmpty(contentValue);
    var t := SectionTemplate(s);
    Appended(before, t, Heading(s), Heading(Overview), Heading(Example));
    before + t
  }

  /** Appending `t` keeps `before` as a prefix and keeps what `before` contains, and the
      result contains what `t` contains. */
  lemma Appended(before: string, t: string, h: string, h1: string, h2: string)
    requires Contains(t, h)
    ensures StartsWith(before + t, before)
    ensures Contains(before + t, h)
    ensures Contains(before, h1) ==> Contains(before + t, h1)
    ensures Contains(before, h2) ==> Contains(before + t, h2)
  {
    Extended(before, t, h1);
    Extended(before, t, h2);
    ContainsExtended(t, h, before, "");
    assert before + t + "" == before + t;
  }

  /** `title.toLowerCase().replace(/\s+/g, '-')`: lower case, and every run of white space
      one hyphen. */
  function TitleFileSlug(title: string): (r: string)
    ensures |r| <= |title|
    ensures forall i :: 0 <= i < |r| ==> !IsSpace(r[i]) && !('A' <= r[i] <= 'Z')
  {
    assert !IsSpace('-');
    ReplacedLower(Lower(title), IsSpace, '-');
    ReplaceRuns(Lower(title), IsSpace, '-')
  }

  /** A character other than white space splits the title: it is kept, lower-cased,
      between what the text before it and the text after it become. */
  lemma TitleFileSlugAround(a: string, c: char, b: string)
    requires !IsSpace(c)
    ensures TitleFileSlug(a + [c] + b) == TitleFileSlug(a) + [LowerChar(c)] + TitleFileSlug(b)
  {
    LowerAround(a, c, b);
    assert !IsSpace(LowerChar(c));
    ReplaceRunsAround(Lower(a), LowerChar(c), Lower(b), IsSpace, '-');
  }

  /** A non-empty run of white space becomes one hyphen. */
  lemma TitleFileSlugRun(t: string)
    requires t != [] && forall i :: 0 <= i < |t| ==> IsSpace(t[i])
    ensures TitleFileSlug(t) == "-"
  {
    assert forall i :: 0 <= i < |t| ==> Lower(t)[i] == t[i];
    ReplaceRunsRun(Lower(t), IsSpace, '-');
  }

  /** Replacing the runs of a class by a character outside it and outside `A`-`Z` leaves
      no class character and no upper-case letter in a text without upper-case letters. */
  lemma ReplacedLower(lower: string, inClass: char -> bool, rep: char)
    requires forall i :: 0 <= i < |lower| ==> !('A' <= lower[i] <= 'Z')
    requires !inClass(rep) && !('A' <= rep <= 'Z')
    ensures var r := ReplaceRuns(lower, inClass, rep);
      forall i :: 0 <= i < |r| ==> !inClass(r[i]) && !('A' <= r[i] <= 'Z')
  {
    var r := ReplaceRuns(lower, inClass, rep);
    forall i | 0 <= i < |r| ensures !inClass(r[i]) && !('A' <= r[i] <= 'Z') {
      if r[i] != rep && !inClass(r[i]) {
        assert r[i] in r;
        NotUpperIn(lower, r[i]);
      }
    }
  }

  lemma NotUpperIn(s: string, c: char)
    requires forall i :: 0 <= i < |s| ==> !('A' <= s[i] <= 'Z')
    requires c in s
    ensures !('A' <= c <= 'Z')
  {
    var j :| 0 <= j < |s| && s[j] == c;
  }

  /** A title that is already lower case and holds no white space is its own file name. */
  lemma TitleFileSlugFixed(title: string)
    requires forall i :: 0 <= i < |title| ==> !IsSpace(title[i]) && !('A' <= title[i] <= 'Z')
    ensures TitleFileSlug(title) == title
  {
    assert Lower(title) == title;
  }

  /** Deriving the file name twice changes nothing more. */
  lemma TitleFileSlugIdempotent(title: string)
    ensures TitleFileSlug(TitleFileSlug(title)) == TitleFileSlug(title)
  {
    TitleFileSlugFixed(TitleFileSlug(title));
  }

  /** `rules/${editSlug}.md` */
  function EditPath(editSlug: string): string {
    "rules/" + editSlug + ".md"
  }

  /** `finalFileName`: the edited rule's path when there is an `edit` slug, otherwise a
      path derived from the title. */
  function FileName(editSlug: Option<string>, title: string): (r: string)
    ensures StartsWith(r, "rules/") && EndsWith(r, ".md")
    ensures IsSet(editSlug) ==> r == EditPath(editSlug.value)
    ensures !IsSet(editSlug) ==> r == "rules/" + TitleFileSlug(title) + ".md"
  {
    var name := if IsSet(editSlug) then editSlug.value else TitleFileSlug(title);
    Framed3("rules/", name, ".md");
    "rules/" + name + ".md"
  }

  /** The file an edit writes is the file the corpus reads back under the edited slug. */
  lemma EditPathReadsBack(editSlug: string)
    requires '\\' !in editSlug
    ensures Rules.SlugFromPath(EditPath(editSlug)[|"rules/"|..]) == editSlug
  {
    assert EditPath(editSlug)[|"rules/"|..] == editSlug + ".md";
    Rules.SlugOfMarkdownFile(editSlug);
    assert ReplaceChar(editSlug, '\\', '/') == editSlug;
  }

  /** `tags.split(',').map(tag => tag.trim())`: one piece per comma-separated piece, each
      trimmed and without a comma; empty pieces are kept. */
  function TagList(tags: string): (r: seq<string>)
    ensures |r| == |Split(tags, ',')|
    ensures forall i :: 0 <= i < |r| ==> ',' !in r[i] && Trim(r[i]) == r[i]
  {
    var pieces := Split(tags, ',');
    TrimmedAvoid(pieces, ',');
    TrimAll(pieces)
  }

  lemma TrimmedAvoid(pieces: seq<string>, c: char)
    requires forall i :: 0 <= i < |pieces| ==> c !in pieces[i]
    ensures forall i :: 0 <= i < |pieces| ==> c !in Trim(pieces[i])
  {
    forall i | 0 <= i < |pieces| ensures c !in Trim(pieces[i]) {
      TrimIntroducesNothing(pieces[i], c);
    }
  }

  /** `pieces.map(p => p.trim())` */
  function TrimAll(pieces: seq<string>): (r: seq<string>)
    ensures |r| == |pieces| && forall i :: 0 <= i < |r| ==> r[i] == Trim(pieces[i])
  {
    seq(|pieces|, i requires 0 <= i < |pieces| => Trim(pieces[i]))
  }

  /** An empty piece between two commas is kept, as an empty tag. */
  lemma {:induction false} TagListEmptyBetween(a: string, b: string)
    requires ',' !in a && ',' !in b
    requires Trim(a) == a && Trim(b) == b
    ensures TagList(a + ",," + b) == [a, "", b]
  {
    CommasBetween(a, b);
    SplitEmptyBetween(a, b, ',');
    TrimEmpty();
    TrimmedThree(a, "", b);
  }

  lemma CommasBetween(a: string, b: string)
    ensures a + ",," + b == a + [','] + ([] + [','] + b)
  {
  }

  lemma TrimEmpty()
    ensures Trim("") == ""
  {
  }

  /** Three pieces that are already trimmed stay as they are. */
  lemma {:induction false} TrimmedThree(a: string, e: string, b: string)
    requires Trim(a) == a && Trim(e) == e && Trim(b) == b
    ensures TrimAll([a, e, b]) == [a, e, b]
  {
    var p := [a, e, b];
    var r := TrimAll(p);
    assert r[0] == Trim(p[0]);
    assert r[1] == Trim(p[1]);
    assert r[2] == Trim(p[2]);
    ThreeEqual(r, p);
  }

  lemma ThreeEqual(r: seq<string>, p: seq<string>)
    requires |r| == |p| == 3 && r[0] == p[0] && r[1] == p[1] && r[2] == p[2]
    ensures r == p
  {
    assert forall i :: 0 <= i < 3 ==> r[i] == p[i];
  }

  lemma SplitEmptyBetween(a: string, b: string, sep: char)
    requires sep !in a && sep !in b
    ensures Split(a + [sep] + ([] + [sep] + b), sep) == [a, "", b]
  {
    SplitAfter(a, [] + [sep] + b, sep);
    SplitAfter([], b, sep);
    assert Split(b, sep) == [b];
  }

  /** Pieces that are already trimmed stay as they are. */
  lemma TrimAllTrimmed(pieces: seq<string>)
    requires forall i :: 0 <= i < |pieces| ==> Trim(pieces[i]) == pieces[i]
    ensures TrimAll(pieces) == pieces
  {
    SameStrings(TrimAll(pieces), pieces);
  }

  /** Trimming the first piece of trimmed tags and the others after a space gives the
      tags back. */
  lemma TrimAllSpaced(tags: seq<string>)
    requires tags != []
    requires forall i :: 0 <= i < |tags| ==> Trim(tags[i]) == tags[i]
    ensures TrimAll([tags[0]] + Spaced(tags[1..])) == tags
  {
    var r := TrimAll([tags[0]] + Spaced(tags[1..]));
    forall i | 0 <= i < |r| ensures r[i] == tags[i] {
      if i > 0 {
        TrimSpacedAt(tags, i);
      }
    }
    SameStrings(r, tags);
  }

  lemma TrimSpacedAt(tags: seq<string>, i: nat)
    requires 0 < i < |tags| && Trim(tags[i]) == tags[i]
    ensures TrimAll([tags[0]] + Spaced(tags[1..]))[i] == tags[i]
  {
    var t := tags[1..];
    assert ([tags[0]] + Spaced(t))[i] == Spaced(t)[i - 1];
    assert t[i - 1] == tags[i];
    TrimAfterSpace(tags[i]);
  }

  /** Each piece after a space. */
  function Spaced(pieces: seq<string>): (r: seq<string>)
    ensures |r| == |pieces| && forall i :: 0 <= i < |r| ==> r[i] == " " + pieces[i]
  {
    seq(|pieces|, i requires 0 <= i < |pieces| => " " + pieces[i])
  }

  lemma SpacedCons(pieces: seq<string>)
    requires pieces != []
    ensures Spaced(pieces) == [" " + pieces[0]] + Spaced(pieces[1..])
  {
  }

  lemma CommaSpace(lead: string, first: string, rest: string)
    ensures lead + (first + ", " + rest) == (lead + first) + [','] + (" " + rest)
  {
    assert ", " == [','] + " ";
  }

  /** The pieces of tags joined by `", "`: the first as it is, the others after a space. */
  lemma {:induction false} SplitJoinedTags(lead: string, tags: seq<string>)
    requires tags != [] && ',' !in lead
    requires forall i :: 0 <= i < |tags| ==> ',' !in tags[i]
    ensures Split(lead + Join(tags, ", "), ',') == [lead + tags[0]] + Spaced(tags[1..])
    decreases |tags|
  {
    if |tags| == 1 {
      assert ',' !in lead + tags[0];
      assert Join(tags, ", ") == tags[0];
      assert Spaced(tags[1..]) == [];
    } else {
      var rest := tags[1..];
      assert Join(tags, ", ") == tags[0] + ", " + Join(rest, ", ");
      CommaSpace(lead, tags[0], Join(rest, ", "));
      assert ',' !in lead + tags[0];
      SplitAfter(lead + tags[0], " " + Join(rest, ", "), ',');
      assert forall i :: 0 <= i < |rest| ==> rest[i] == tags[i + 1];
      SplitJoinedTags(" ", rest);
      SpacedCons(rest);
    }
  }

  /** The tag box the edit form loads (`tags.join(', ')`) parses back into the same tags
      when they are trimmed and hold no comma. */
  lemma TagListOfJoined(tags: seq<string>)
    requires tags != []
    requires forall i :: 0 <= i < |tags| ==> ',' !in tags[i] && Trim(tags[i]) == tags[i]
    ensures TagList(Join(tags, ", ")) == tags
  {
    SplitTagText(tags);
    TrimAllSpaced(tags);
  }

  lemma SplitTagText(tags: seq<string>)
    requires tags != []
    requires forall i :: 0 <= i < |tags| ==> ',' !in tags[i]
    ensures Split(Join(tags, ", "), ',') == [tags[0]] + Spaced(tags[1..])
  {
    SplitJoinedTags("", tags);
    assert "" + Join(tags, ", ") == Join(tags, ", ");
    assert "" + tags[0] == tags[0];
  }

  lemma SameStrings(a: seq<string>, b: seq<string>)
    requires |a| == |b| && forall i :: 0 <= i < |a| ==> a[i] == b[i]
    ensures a == b
  {
  }

  /** The issue title of the fallback: `[Update] ` while editing, `[Proposal] ` otherwise. */
  function IssueTitle(editSlug: Option<string>, title: string): (r: string)
    ensures EndsWith(r, title)
  {
    var prefix := if IsSet(editSlug) then "[Update] " else "[Proposal] ";
    Framed3(prefix, "", title);
    assert prefix + "" == prefix;
    prefix + title
  }

  /** What `submitRule` does with the form: without `NEXT_PUBLIC_GITHUB_TOKEN` it opens a
      new issue on `owner/repo`; otherwise it asks the service to propose the rule, or to
      update the edited one. */
  datatype Request =
    | NewIssue(owner: string, repo: string, title: string)
    | Propose(rule: RuleSubmission.RuleSubmissionParams)
    | Update(update: RuleSubmission.RuleUpdateParams)

  /** `commonParams` */
  function CommonParams(editSlug: Option<string>, d: RuleFormData): (p: RuleSubmission.RuleSubmissionParams)
    ensures p.fileName == FileName(editSlug, d.title) && p.tags == TagList(d.tags)
  {
    RuleSubmission.RuleSubmissionParams(d.title, d.content, d.category, TagList(d.tags), d.difficulty, d.author, FileName(editSlug, d.title))
  }

  function SubmissionRequest(env: Env, editSlug: Option<string>, d: RuleFormData): (r: Request)
    ensures r.NewIssue? <==> !IsSet(env.publicToken)
    ensures r.NewIssue? ==>
      r.owner == EnvOr(env.owner, "depari") && r.repo == EnvOr(env.repo, "srules") && r.title == IssueTitle(editSlug, d.title)
    ensures r.Update? <==> IsSet(env.publicToken) && IsSet(editSlug)
    ensures r.Update? ==>
      r.update.rule == CommonParams(editSlug, d) && r.update.originalPath == r.update.rule.fileName == EditPath(editSlug.value)
    ensures r.Propose? ==>
      r.rule == CommonParams(editSlug, d) && r.rule.fileName == "rules/" + TitleFileSlug(d.title) + ".md"
  {
    if !IsSet(env.publicToken) then
      NewIssue(EnvOr(env.owner, "depari"), EnvOr(env.repo, "srules"), IssueTitle(editSlug, d.title))
    else if IsSet(editSlug) then
      Update(RuleSubmission.RuleUpdateParams(CommonParams(editSlug, d), EditPath(editSlug.value)))
    else
      Propose(CommonParams(editSlug, d))
  }

  /** What `submitRule` ends with: the fallback issue it opened, or the answer of the
      service's `submitRule`/`updateRule`, whose pull request URL goes to `setPrUrl`. */
  datatype Outcome =
    | IssueOpened(issue: Request)
    | PullRequested(pr: Result<GitRemote.PullRequest>)

  /** The calls the service makes for a proposal, up to the first refused one. */
  function ServiceRun(respond: seq<GitRemote.Call> -> Result<GitRemote.Reply>, t0: seq<GitRemote.Call>, q: RuleSubmission.Proposal): GitRemote.Run {
    GitRemote.RunOf(respond, t0, RuleSubmission.ProposalCalls(q, RuleSubmission.MainSha(respond, t0), RuleSubmission.FileSha(respond, t0, q)))
  }

  /** `submitRule(data)` of the hook, given `Date.now()` and the date part of the clock:
      without a token it opens the issue and makes no call; otherwise it runs the
      proposal or the update through the service and keeps its answer. */
  method SubmitForm(service: RuleSubmission.RuleSubmissionService, env: Env, editSlug: Option<string>, d: RuleFormData, timestamp: nat, now: string)
    returns (o: Outcome)
    modifies service.remote
    ensures var req := SubmissionRequest(env, editSlug, d);
      var respond, t0 := service.remote.respond, old(service.remote.trace);
      match req
      case NewIssue(_, _, _) => o == IssueOpened(req) && service.remote.trace == t0
      case Propose(rule) =>
        var run := ServiceRun(respond, t0, RuleSubmission.SubmitProposal(rule, timestamp, now));
        service.remote.trace == t0 + run.made && o == PullRequested(GitRemote.Passed(run, GitRemote.PullRequestOf(respond(service.remote.trace))))
      case Update(u) =>
        var run := ServiceRun(respond, t0, RuleSubmission.UpdateProposal(u, timestamp, now));
        service.remote.trace == t0 + run.made && o == PullRequested(GitRemote.Passed(run, GitRemote.PullRequestOf(respond(service.remote.trace))))
  {
    var req := SubmissionRequest(env, editSlug, d);
    match req {
      case NewIssue(_, _, _) =>
        o := IssueOpened(req);
      case Propose(rule) =>
        var pr := service.SubmitRule(rule, timestamp, now);
        o := PullRequested(pr);
      case Update(u) =>
        var pr := service.UpdateRule(u, timestamp, now);
        o := PullRequested(pr);
    }
  }

  /** The issue title of the fallback is the title the service gives the pull request for
      the same form. */
  lemma FallbackTitleIsPRTitle(env: Env, editSlug: Option<string>, d: RuleFormData, timestamp: nat, now: string)
    ensures var withToken := env.(publicToken := Some("token"));
      match SubmissionRequest(withToken, editSlug, d)
      case Propose(rule) => RuleSubmission.SubmitProposal(rule, timestamp, now).prTitle == IssueTitle(editSlug, d.title)
      case Update(update) => RuleSubmission.UpdateProposal(update, timestamp, now).prTitle == IssueTitle(editSlug, d.title)
      case NewIssue(_, _, _) => false
  {
  }
}
