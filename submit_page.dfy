/** The submit page (src/app/submit/page.tsx): its schema, the section templates its editor
    inserts with a blank line before them, the section gate of `onSubmit`, the tag parsing,
    and what a submission then does: a pull request through the GitHub client, or the
    generated markdown in test mode when no token is configured. */
module SubmitPage {
  import opened Wrappers
  import opened Text
  import opened Seqs
  import opened GitRemote
  import opened RuleSubmissionHook
  import GitHubClient
  import Yaml
  import RuleSubmission
  import ValidateRule

  /** The bound the page's `ruleSchema` puts on each field; the title has a maximum too. */
  predicate PageMeets(d: RuleFormData, f: Field) {
    match f
    case Title => 5 <= |d.title| <= 100
    case Category => |d.category| >= 1
    case Tags => |d.tags| >= 1
    case Author => |d.author| >= 2
    case Content => |d.content| >= 50
  }

  /** The message for a field that misses its bound; a title is either too short or too long. */
  function PageMessage(d: RuleFormData, f: Field): string {
    match f
    case Title => if |d.title| < 5 then "제목은 최소 5자 이상이어야 합니다" else "제목은 100자를 초과할 수 없습니다"
    case Category => "최소 1개의 카테고리를 선택해야 합니다"
    case Tags => "태그는 필수입니다"
    case Author => "작성자 이름은 필수입니다"
    case Content => "규칙 내용은 최소 50자 이상이어야 합니다"
  }

  /** `ruleSchema` of the page: an issue for each field that misses its bound, and none when
      every bound is met. */
  function PageSchemaIssues(d: RuleFormData): (r: seq<Issue>)
    ensures forall f :: Flags(r, f) <==> !PageMeets(d, f)
    ensures r == [] <==> forall f :: PageMeets(d, f)
  {
    NoSchemaIssues(f => PageMeets(d, f), f => PageMessage(d, f));
    Issues(Fields, f => PageMeets(d, f), f => PageMessage(d, f))
  }

  /** The page accepts a title of 101 characters that the hook's schema would also pass,
      but no longer one: the page bounds the title from above, the hook does not. */
  lemma PageBoundsTitle(d: RuleFormData)
    ensures PageMeets(d, Title) ==> Meets(d, Title)
    ensures |d.title| > 100 ==> Meets(d, Title) && !PageMeets(d, Title)
  {
  }

  /** The text the page's `insertSection` adds for a section: the heading, placeholder
      text, and an empty line. */
  function PageTemplate(s: Section): (t: string)
    ensures StartsWith(t, Heading(s)) && EndsWith(t, "\n\n") && Contains(t, Heading(s))
  {
    var heading, body := Heading(s), PagePlaceholder(s);
    Headed(heading, body, "\n\n");
    heading + body + "\n\n"
  }

  lemma Headed(heading: string, body: string, tail: string)
    ensures var t := heading + body + tail;
      StartsWith(t, heading) && EndsWith(t, tail) && Contains(t, heading)
  {
    Framed3(heading, body, tail);
    ContainsInMiddle("", heading, body + tail);
    Assoc(heading, body, tail);
    assert "" + heading + (body + tail) == heading + (body + tail);
  }

  function PagePlaceholder(s: Section): string {
    match s
    case Overview => "\n\n" + "이 규칙의 목적과 배경에 대해 설명해주세요."
    case Example =>
      "\n\n" + "좋은 예시와 나쁜 예시를 코드로 보여주세요.\n" + "\n"
      + "```typescript\n" + "// Good Case\n" + "\n" + "// Bad Case\n" + "```"
  }

  /** What goes between the content and a template: nothing for empty content or content
      that already ends in an empty line, one newline after a single one, otherwise two.
      After it, non-empty content always ends in an empty line. */
  function Separator(current: string): (sep: string)
    ensures current == "" ==> sep == ""
    ensures EndsWith(current, "\n\n") ==> sep == ""
    ensures current != "" && EndsWith(current, "\n") && !EndsWith(current, "\n\n") ==> sep == "\n"
    ensures current != "" && !EndsWith(current, "\n") ==> sep == "\n\n"
    ensures current != "" ==> EndsWith(current + sep, "\n\n")
  {
    if |current| > 0 && !EndsWith(current, "\n\n") then
      if EndsWith(current, "\n") then
        NewlineDoubled(current);
        "\n"
      else
        BlankLineAdded(current);
        "\n\n"
    else
      assert current + "" == current;
      ""
  }

  lemma NewlineDoubled(current: string)
    requires EndsWith(current, "\n")
    ensures EndsWith(current + "\n", "\n\n")
  {
    var n := |current|;
    assert current[n - 1] == current[n - 1..][0];
    assert (current + "\n")[n - 1..] == [current[n - 1], '\n'];
  }

  lemma BlankLineAdded(current: string)
    ensures EndsWith(current + "\n\n", "\n\n")
  {
    assert (current + "\n\n")[|current|..] == "\n\n";
  }

  /** The page's `insertSection`: the content (`getValues('content') || ''`), the
      separator, then the template. The old content stays a prefix, the section is then
      detected, a section detected before still is, and the result ends in an empty line. */
  function PageInsertSection(currentValue: Option<string>, s: Section): (r: string)
    ensures StartsWith(r, OrEmpty(currentValue))
    ensures Contains(r, Heading(s))
    ensures forall other :: Contains(OrEmpty(currentValue), Heading(other)) ==> Contains(r, Heading(other))
    ensures EndsWith(r, "\n\n")
    ensures r == OrEmpty(currentValue) + Separator(OrEmpty(currentValue)) + PageTemplate(s)
  {
    var current := OrEmpty(currentValue);
    var t := PageTemplate(s);
    var head := current + Separator(current);
    Appended(head, t, Heading(s), Heading(Overview), Heading(Example));
    Extended(current, Separator(current), Heading(Overview));
    Extended(current, Separator(current), Heading(Example));
    StartsWithAppend(head, t, current);
    EndsWithAppended(head, t, "\n\n");
    head + t
  }

  lemma EndsWithAppended(a: string, b: string, p: string)
    requires EndsWith(b, p)
    ensures EndsWith(a + b, p)
  {
    assert (a + b)[|a + b| - |p|..] == b[|b| - |p|..];
  }

  /** A second section goes right after the first: no separator is needed any more. */
  lemma InsertAfterInsert(currentValue: Option<string>, first: Section, second: Section)
    ensures var once := PageInsertSection(currentValue, first);
      PageInsertSection(Some(once), second) == once + PageTemplate(second)
  {
    var once := PageInsertSection(currentValue, first);
    assert once + "" == once;
  }

  /** The check `onSubmit` makes before anything else. */
  predicate HasRequiredSections(content: string) {
    Contains(content, ValidateRule.OverviewHeader) && Contains(content, ValidateRule.ExampleHeader)
  }

  /** Inserting both sections, in either order, into any content passes the check. */
  lemma InsertedSectionsPass(currentValue: Option<string>, first: Section)
    ensures var second := if first == Overview then Example else Overview;
      HasRequiredSections(PageInsertSection(Some(PageInsertSection(currentValue, first)), second))
  {
  }

  /** The check passes exactly when the rule validator, given the content as the body of
      the file, reports neither missing section. */
  lemma GateAgreesWithValidator(data: Yaml.Frontmatter, content: string)
    ensures HasRequiredSections(content) <==>
      && ValidateRule.MissingSectionMessage(ValidateRule.OverviewHeader) !in ValidateRule.Errors(data, content)
      && ValidateRule.MissingSectionMessage(ValidateRule.ExampleHeader) !in ValidateRule.Errors(data, content)
  {
    ValidateRule.SectionErrorsIndependent(data, content);
  }

  function NonEmpty(): string -> bool {
    t => t != ""
  }

  /** `tags.split(',').map(tag => tag.trim()).filter(Boolean)`: the trimmed comma-separated
      pieces that are not empty, in their order. */
  function PageTags(tags: string): (r: seq<string>)
    ensures forall i :: 0 <= i < |r| ==> r[i] != "" && ',' !in r[i] && Trim(r[i]) == r[i]
    ensures IsSubsequence(r, TagList(tags))
    ensures forall t :: t in r <==> t in TagList(tags) && t != ""
    ensures forall t :: Count(r, t) == if t != "" then Count(TagList(tags), t) else 0
  {
    var all := TagList(tags);
    var r := Filter(all, NonEmpty());
    forall t ensures Count(r, t) == if t != "" then Count(all, t) else 0 {
      FilterCount(all, NonEmpty(), t);
    }
    forall i | 0 <= i < |r| ensures ',' !in r[i] && Trim(r[i]) == r[i] {
      assert r[i] in all;
      var j :| 0 <= j < |all| && all[j] == r[i];
    }
    r
  }

  /** Tags joined with `", "` parse back into the same tags, the empty list included, when
      each is trimmed, not empty and without a comma. */
  lemma PageTagsOfJoined(tags: seq<string>)
    requires forall i :: 0 <= i < |tags| ==> tags[i] != "" && ',' !in tags[i] && Trim(tags[i]) == tags[i]
    ensures PageTags(Join(tags, ", ")) == tags
  {
    if tags == [] {
      assert Split("", ',') == [""];
      assert TagList("") == [""];
      assert Filter([""], NonEmpty()) == [] by {
        assert [""][1..] == [];
      }
    } else {
      TagListOfJoined(tags);
      FilterKeepsAll(tags, NonEmpty());
    }
  }

  /** An empty piece between two commas stays in the hook's tags and not in the page's. */
  lemma EmptyPieceBetweenCommas(a: string, b: string)
    requires ',' !in a && ',' !in b && a != "" && b != ""
    requires Trim(a) == a && Trim(b) == b
    ensures TagList(a + ",," + b) == [a, "", b]
    ensures PageTags(a + ",," + b) == [a, b]
  {
    TagListEmptyBetween(a, b);
    EmptyDropped(a, b);
  }

  lemma EmptyDropped(a: string, b: string)
    requires a != "" && b != ""
    ensures Filter([a, "", b], NonEmpty()) == [a, b]
  {
    assert [a, "", b][1..] == ["", b] && ["", b][1..] == [b] && [b][1..] == [];
  }

  /** The rule `submitRule` receives: the form's fields, the page's tags, and the name of
      the difficulty. */
  function PageParams(d: RuleFormData): (p: GitHubClient.PRParams)
    ensures p.tags == PageTags(d.tags) && p.difficulty == RuleSubmission.DifficultyName(d.difficulty)
  {
    GitHubClient.PRParams(d.title, d.content, d.category, PageTags(d.tags), RuleSubmission.DifficultyName(d.difficulty), d.author)
  }

  /** The frontmatter the page prints in test mode, `today` being the date part of
      `new Date().toISOString()`. */
  function TestModeLines(d: RuleFormData, today: string): (r: seq<string>)
    ensures |r| == 9 && r[0] == "---" && r[8] == "---"
  {
    FrontLines(d.title, today, d.author, Yaml.QuotedList(PageTags(d.tags)), Yaml.QuotedList(d.category),
      RuleSubmission.DifficultyName(d.difficulty))
  }

  function FrontLines(title: string, created: string, author: string, tags: string, category: string, difficulty: string): seq<string> {
    [ "---",
      "title: \"" + title + "\"",
      "version: \"1.0.0\"",
      "created: \"" + created + "\"",
      "author: \"" + author + "\"",
      "tags: " + tags,
      "category: " + category,
      "difficulty: " + difficulty,
      "---" ]
  }

  lemma FrontLinesUnbroken(title: string, created: string, author: string, tags: string, category: string, difficulty: string)
    requires '\n' !in title && '\n' !in created && '\n' !in author
    requires '\n' !in tags && '\n' !in category && '\n' !in difficulty
    ensures var lines := FrontLines(title, created, author, tags, category, difficulty);
      forall i :: 0 <= i < |lines| ==> '\n' !in lines[i]
  {
  }

  /** The markdown printed in test mode: the frontmatter, an empty line, the content. */
  function TestModeMarkdown(d: RuleFormData, today: string): string {
    Join(TestModeLines(d, today), "\n") + "\n\n" + d.content
  }

  /** When the title, author, tags, date and categories are single lines, the printed
      frontmatter splits back into its lines. */
  lemma TestModeReadsBack(d: RuleFormData, today: string)
    requires '\n' !in d.title && '\n' !in d.author && '\n' !in d.tags && '\n' !in today
    requires forall i :: 0 <= i < |d.category| ==> '\n' !in d.category[i]
    ensures Split(Join(TestModeLines(d, today), "\n"), '\n') == TestModeLines(d, today)
  {
    var tags := PageTags(d.tags);
    forall i | 0 <= i < |tags| ensures '\n' !in tags[i] {
      assert tags[i] in TagList(d.tags);
      NoNewlineInTag(d.tags, tags[i]);
    }
    Yaml.QuotedListSingleLine(tags);
    Yaml.QuotedListSingleLine(d.category);
    var difficulty := RuleSubmission.DifficultyName(d.difficulty);
    DifficultySingleLine(d.difficulty);
    FrontLinesUnbroken(d.title, today, d.author, Yaml.QuotedList(tags), Yaml.QuotedList(d.category), difficulty);
    SplitJoin(TestModeLines(d, today), '\n');
  }

  lemma DifficultySingleLine(x: RuleSubmission.Difficulty)
    ensures '\n' !in RuleSubmission.DifficultyName(x)
  {
  }

  /** A tag of a text without newlines holds none. */
  lemma NoNewlineInTag(tags: string, t: string)
    requires '\n' !in tags && t in TagList(tags)
    ensures '\n' !in t
  {
    var pieces := Split(tags, ',');
    var i :| 0 <= i < |TagList(tags)| && TagList(tags)[i] == t;
    JoinSplit(tags, ',');
    JoinAvoidsBack(pieces, ",", '\n', i);
    TrimIntroducesNothing(pieces[i], '\n');
  }

  /** A piece of a join holds nothing the join does not. */
  lemma {:induction false} JoinAvoidsBack(parts: seq<string>, sep: string, c: char, i: nat)
    requires i < |parts| && c !in Join(parts, sep)
    ensures c !in parts[i]
  {
    if |parts| > 1 {
      assert Join(parts, sep) == parts[0] + sep + Join(parts[1..], sep);
      if i > 0 {
        assert parts[1..][i - 1] == parts[i];
        JoinAvoidsBack(parts[1..], sep, c, i - 1);
      }
    }
  }

  /** What a press of the submit button comes to. */
  datatype Outcome =
    | Invalid(issues: seq<Issue>)
    | MissingSections
    | Submitted(pr: Result<PullRequest>)
    | TestMode(markdown: string)

  /** What `onSubmit` has done when it returns `o`, the repository having received `t0`
      before and `t1` after: a missing section stops it, and so does the lack of a token,
      with the test-mode markdown, both before any call; otherwise the outcome is that of
      `submitRule` with the page's rule. */
  predicate SubmitDone(d: RuleFormData, env: GitHubClient.Env, respond: seq<Call> -> Result<Reply>,
                       t0: seq<Call>, t1: seq<Call>, timestamp: nat, today: string, o: Outcome)
  {
    if !HasRequiredSections(d.content) then
      o == MissingSections && t1 == t0
    else if GitHubClient.Settings(env).None? then
      o == TestMode(TestModeMarkdown(d, today)) && t1 == t0
    else
      var s := GitHubClient.SubmissionOf(PageParams(d), timestamp, today);
      var run := RunOf(respond, t0, GitHubClient.SubmissionCalls(s, MainShaAt(respond, t0 + [Call.GetMainBranchSha])));
      && t1 == t0 + run.made
      && o == Submitted(Passed(run, if s.file.None? then Failure(GitHubClient.UndefinedCategory) else PullRequestOf(respond(t1))))
  }

  /** `onSubmit`, on data the schema accepted. A failed submission is caught and reported.
      `timestamp` and `today` are the clock's readings. */
  method OnSubmit(d: RuleFormData, env: GitHubClient.Env, remote: Remote, timestamp: nat, today: string) returns (o: Outcome)
    modifies remote
    ensures SubmitDone(d, env, remote.respond, old(remote.trace), remote.trace, timestamp, today, o)
  {
    if !HasRequiredSections(d.content) {
      return MissingSections;
    }
    var params := PageParams(d);
    var github := GitHubClient.CreateGitHubClient(env, remote);
    if github == null {
      return TestMode(TestModeMarkdown(d, today));
    }
    var pr := github.SubmitRule(params, timestamp, today);
    o := Submitted(pr);
  }

  /** `handleSubmit(onSubmit)`: data the schema rejects gives its issues and makes no
      call; other data goes to `onSubmit`. */
  method HandleSubmit(d: RuleFormData, env: GitHubClient.Env, remote: Remote, timestamp: nat, today: string) returns (o: Outcome)
    modifies remote
    ensures PageSchemaIssues(d) != [] ==> o == Invalid(PageSchemaIssues(d)) && remote.trace == old(remote.trace)
    ensures PageSchemaIssues(d) == [] ==> SubmitDone(d, env, remote.respond, old(remote.trace), remote.trace, timestamp, today, o)
  {
    var issues := PageSchemaIssues(d);
    if issues != [] {
      return Invalid(issues);
    }
    o := OnSubmit(d, env, remote, timestamp, today);
  }
}
