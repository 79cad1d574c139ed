/** The service that turns a form into a pull request proposing a new rule, a change to
    a rule or the removal of one (src/services/github/RuleSubmissionService.ts): the
    branch names, the markdown file, the pull-request descriptions, and the calls to the
    repository in the order the service makes them. */
module RuleSubmission {
  import opened Wrappers
  import opened Text
  import opened Yaml
  import opened GitRemote

  datatype Difficulty = Beginner | Intermediate | Advanced

  function DifficultyName(d: Difficulty): string {
    match d
    case Beginner => "beginner"
    case Intermediate => "intermediate"
    case Advanced => "advanced"
  }

  /** `RuleSubmissionParams` */
  datatype RuleSubmissionParams = RuleSubmissionParams(
    title: string,
    content: string,
    category: seq<string>,
    tags: seq<string>,
    difficulty: Difficulty,
    author: string,
    fileName: string)

  /** `RuleUpdateParams`: the submission fields and the path of the file to change. */
  datatype RuleUpdateParams = RuleUpdateParams(rule: RuleSubmissionParams, originalPath: string)

  /** `RuleDeleteParams` */
  datatype RuleDeleteParams = RuleDeleteParams(title: string, originalPath: string, author: string)

  /** An extension starts at `i`: a dot there, and one or more word characters after it up
      to the end. */
  predicate ExtensionAt(s: string, i: int) {
    0 <= i < |s| - 1 && s[i] == '.' && forall j :: i < j < |s| ==> IsWordChar(s[j])
  }

  /** `s.replace(/\.\w+$/, '')`: the text before the extension when there is one, the
      text itself otherwise. */
  function StripExtension(s: string): (r: string)
    ensures |r| <= |s| && r == s[..|r|]
    ensures r != s ==> ExtensionAt(s, |r|)
    ensures r == s ==> forall i :: 0 <= i < |s| ==> !ExtensionAt(s, i)
  {
    var n := TrailingWord(s);
    assert !IsWordChar('.');
    if 0 < n < |s| && s[|s| - n - 1] == '.' then s[..|s| - n - 1] else s
  }

  /** A name with an extension loses exactly that extension. */
  lemma StripExtensionOf(base: string, ext: string)
    requires ext != [] && forall i :: 0 <= i < |ext| ==> IsWordChar(ext[i])
    ensures StripExtension(base + "." + ext) == base
  {
    var s := base + "." + ext;
    assert !IsWordChar('.');
    TrailingWordAfter(base, '.', ext);
    assert s[|s| - |ext| - 1] == '.';
    assert s[..|base|] == base;
  }

  /** `add-rule-${fileName.replace(/\.\w+$/, '')}-${timestamp}` */
  function AddBranch(fileName: string, timestamp: nat): string {
    Stamped("add-rule-" + StripExtension(fileName), timestamp)
  }

  /** `${path.replace(/\.\w+$/, '').replace(/\//g, '-')}`: the path without its extension,
      slashes turned into hyphens. */
  function PathPart(path: string): (r: string)
    ensures |r| == |StripExtension(path)| && '/' !in r
  {
    ReplaceChar(StripExtension(path), '/', '-')
  }

  /** `${prefix}${path part}-${timestamp}`: a branch name for an existing path, without a
      slash when the prefix has none. */
  function PathBranch(prefix: string, path: string, timestamp: nat): (r: string)
    ensures StartsWith(r, prefix)
    ensures '/' !in prefix ==> '/' !in r
  {
    var r := Stamped(prefix + PathPart(path), timestamp);
    StampedStartsWith(prefix, PathPart(path), timestamp);
    assert '/' !in DecimalString(timestamp) by {
      assert forall i :: 0 <= i < |DecimalString(timestamp)| ==> '0' <= DecimalString(timestamp)[i] <= '9';
    }
    r
  }

  /** `update-rule-${path part}-${timestamp}` */
  function UpdateBranch(path: string, timestamp: nat): string {
    PathBranch("update-rule-", path, timestamp)
  }

  /** `delete-rule-${path part}-${timestamp}` */
  function DeleteBranch(path: string, timestamp: nat): string {
    PathBranch("delete-rule-", path, timestamp)
  }

  /** Each branch carries the time it was made at, readable back from its end. */
  lemma BranchTimestamps(name: string, path: string, timestamp: nat)
    ensures TrailingNumber(AddBranch(name, timestamp)) == timestamp
    ensures TrailingNumber(UpdateBranch(path, timestamp)) == timestamp
    ensures TrailingNumber(DeleteBranch(path, timestamp)) == timestamp
  {
    StampedReadBack("add-rule-" + StripExtension(name), timestamp);
    StampedReadBack("update-rule-" + PathPart(path), timestamp);
    StampedReadBack("delete-rule-" + PathPart(path), timestamp);
  }

  /** The frontmatter lines `createMarkdownContent` writes, `now` being the date part of
      `new Date().toISOString()`. */
  function FrontmatterLines(r: RuleSubmissionParams, now: string): (lines: seq<string>)
    ensures |lines| == 8 && lines[0] == "---" && lines[7] == "---"
  {
    [ "---",
      "title: \"" + r.title + "\"",
      "created: \"" + now + "\"",
      "author: \"" + r.author + "\"",
      "category: " + QuotedList(r.category),
      "tags: " + QuotedList(r.tags),
      "difficulty: \"" + DifficultyName(r.difficulty) + "\"",
      "---" ]
  }

  /** `createMarkdownContent`: the frontmatter block, an empty line and the content, the
      whole trimmed. */
  function MarkdownContent(r: RuleSubmissionParams, now: string): string {
    Trim(Join(FrontmatterLines(r, now), "\n") + "\n\n" + r.content + "\n")
  }

  /** A block of lines that starts and ends with `---` starts and ends with a hyphen. */
  lemma DelimitedBlock(lines: seq<string>)
    requires |lines| >= 2 && lines[0] == "---" && lines[|lines| - 1] == "---"
    ensures var block := Join(lines, "\n");
      block != [] && block[0] == '-' && block[|block| - 1] == '-'
    decreases |lines|
  {
    var block := Join(lines, "\n");
    assert block == "---" + "\n" + Join(lines[1..], "\n");
    var tail := lines[1..];
    if |tail| == 1 {
      assert Join(tail, "\n") == "---";
    } else {
      LastJoined(tail, "\n");
    }
  }

  /** The join of two or more pieces ends with the last piece. */
  lemma {:induction false} LastJoined(parts: seq<string>, sep: string)
    requires |parts| >= 2
    ensures var j := Join(parts, sep);
      |j| >= |parts[|parts| - 1]| && j[|j| - |parts[|parts| - 1]|..] == parts[|parts| - 1]
    decreases |parts|
  {
    var last := parts[|parts| - 1];
    var rest := Join(parts[1..], sep);
    if |parts| == 2 {
      assert rest == last;
    } else {
      LastJoined(parts[1..], sep);
    }
    var j := parts[0] + sep + rest;
    assert j[|j| - |last|..] == rest[|rest| - |last|..];
  }

  /** The trimmed file keeps the whole frontmatter block; after it come an empty line and
      the content without its trailing white space, or nothing when the content is all
      white space. */
  lemma MarkdownContentShape(r: RuleSubmissionParams, now: string)
    ensures var block := Join(FrontmatterLines(r, now), "\n");
      && (TrimEnd(r.content) != [] ==> MarkdownContent(r, now) == block + "\n\n" + TrimEnd(r.content))
      && (TrimEnd(r.content) == [] ==> MarkdownContent(r, now) == block)
  {
    DelimitedBlock(FrontmatterLines(r, now));
    assert !IsSpace('-');
    TrimBlockThenText(Join(FrontmatterLines(r, now), "\n"), r.content);
  }

  /** No field of the form holds a line break. */
  predicate SingleLine(r: RuleSubmissionParams, now: string) {
    && '\n' !in r.title && '\n' !in r.author && '\n' !in now
    && (forall i :: 0 <= i < |r.tags| ==> '\n' !in r.tags[i])
    && (forall i :: 0 <= i < |r.category| ==> '\n' !in r.category[i])
  }

  /** When the form fields are single lines, the frontmatter block of the file splits back
      into the lines written. */
  lemma FrontmatterReadsBack(r: RuleSubmissionParams, now: string)
    requires SingleLine(r, now)
    ensures Split(Join(FrontmatterLines(r, now), "\n"), '\n') == FrontmatterLines(r, now)
  {
    var lines := FrontmatterLines(r, now);
    QuotedListSingleLine(r.tags);
    QuotedListSingleLine(r.category);
    assert forall d :: '\n' !in DifficultyName(d);
    assert forall i :: 0 <= i < |lines| ==> '\n' !in lines[i];
    SplitJoin(lines, '\n');
  }

  /** A text between two newlines, beginning with `head` and ending with `tail`, both free
      of white space at the outer end, trims to itself. */
  lemma PaddedText(head: string, middle: string, tail: string)
    requires head != [] && !IsSpace(head[0])
    requires tail != [] && !IsSpace(tail[|tail| - 1])
    ensures Trim("\n" + (head + middle + tail) + "\n") == head + middle + tail
    ensures StartsWith(head + middle + tail, head)
    ensures EndsWith(head + middle + tail, tail)
  {
    var s := head + middle + tail;
    assert s[0] == head[0] && s[|s| - 1] == tail[|tail| - 1];
    TrimPadded(s);
    StartsWithSelf(head);
    StartsWithAppend(head, middle, head);
    StartsWithAppend(head + middle, tail, head);
    assert s[|s| - |tail|..] == tail;
  }

  /** As `PaddedText`, for a text that holds `line` between `before` and `tail`. */
  lemma PaddedLine(head: string, before: string, line: string, tail: string)
    requires head != [] && !IsSpace(head[0])
    requires tail != [] && !IsSpace(tail[|tail| - 1])
    ensures Trim("\n" + (head + before + line + tail) + "\n") == head + before + line + tail
    ensures StartsWith(head + before + line + tail, head)
    ensures Contains(head + before + line + tail, line)
  {
    PaddedText(head + before, line, tail);
    StartsWithSelf(head);
    StartsWithAppend(head, before, head);
    StartsWithAppend(head + before, line, head);
    StartsWithAppend(head + before + line, tail, head);
    ContainsInMiddle(head + before, line, tail);
  }

  /** Two texts that differ at index 3 cannot both begin a text. */
  lemma HeadingsExclusive(s: string, x: string, y: string)
    requires |x| > 3 && |y| > 3 && x[3] != y[3] && StartsWith(s, x)
    ensures !StartsWith(s, y)
  {
    assert s[3] == s[..|x|][3] == x[3];
    if |y| <= |s| {
      assert s[..|y|][3] == s[3];
    }
  }

  /** A text that begins with the heading for `isUpdate` begins with the change heading
      exactly when `isUpdate` holds. */
  lemma HeadingTellsUpdate(s: string, isUpdate: bool)
    requires StartsWith(s, if isUpdate then UpdateHeading else ProposalHeading)
    ensures StartsWith(s, UpdateHeading) <==> isUpdate
  {
    if !isUpdate {
      assert ProposalHeading[3] == '새' && UpdateHeading[3] == '규';
      HeadingsExclusive(s, ProposalHeading, UpdateHeading);
    }
  }

  const Footer: string := "\n\n---\n*이 PR은 Smart Rules Archive 웹사이트에서 생성되었습니다.*"

  const UpdateHeading: string := "## 규칙 수정 요청"

  const ProposalHeading: string := "## 새 규칙 제안"

  lemma FooterEnd()
    ensures Footer != [] && !IsSpace(Footer[|Footer| - 1])
  {
    assert Footer[|Footer| - 1] == '*';
  }

  /** `createPRBody`: the heading names a change exactly when it is one, then the fields
      and the closing note. */
  function PRBody(r: RuleSubmissionParams, isUpdate: bool): (body: string)
    ensures StartsWith(body, UpdateHeading) <==> isUpdate
    ensures !isUpdate ==> StartsWith(body, ProposalHeading)
    ensures EndsWith(body, Footer)
  {
    var heading := if isUpdate then UpdateHeading else ProposalHeading;
    var fields := "\n\n**제목**: " + r.title
      + "\n**카테고리**: " + Join(r.category, ", ")
      + "\n**태그**: " + Join(r.tags, ", ")
      + "\n**난이도**: " + DifficultyName(r.difficulty)
      + "\n**작성자**: " + r.author;
    FooterEnd();
    assert heading[0] == '#';
    PaddedText(heading, fields, Footer);
    HeadingTellsUpdate(heading + fields + Footer, isUpdate);
    Trim("\n" + (heading + fields + Footer) + "\n")
  }

  const DeleteHeading: string := "## 규칙 삭제 요청"

  /** The description of a removal, trimmed: its heading, and the path on a line. */
  function DeleteBody(d: RuleDeleteParams): (body: string)
    ensures StartsWith(body, DeleteHeading)
    ensures Contains(body, "**경로**: " + d.originalPath + "\n")
  {
    var before := "\n\n**제목**: " + d.title + "\n";
    var pathLine := "**경로**: " + d.originalPath + "\n";
    var after := "**요청자**: " + d.author + Footer;
    FooterEnd();
    assert DeleteHeading[0] == '#';
    EndsWithPart("**요청자**: " + d.author, Footer);
    PaddedLine(DeleteHeading, before, pathLine, after);
    Trim("\n" + (DeleteHeading + before + pathLine + after) + "\n")
  }

  lemma EndsWithPart(a: string, b: string)
    ensures EndsWith(a + b, b)
    ensures b != [] ==> (a + b)[|a + b| - 1] == b[|b| - 1]
  {
    assert (a + b)[|a + b| - |b|..] == b;
  }

  /** What a proposal does to the file: write it anew, overwrite it, or remove it. */
  datatype Change = Create(content: string) | Update(newContent: string) | Remove

  /** Everything a proposal sends: its branch, the file, what happens to it, the commit
      message, and the pull request's title and description. */
  datatype Proposal = Proposal(branch: string, path: string, change: Change, message: string, prTitle: string, prBody: string)

  /** The first two calls of every proposal: read the main SHA, then create the branch
      from it. */
  function BranchCalls(branch: string, mainSha: string): seq<Call> {
    [Call.GetMainBranchSha, Call.CreateBranch(branch, mainSha)]
  }

  /** The calls on the file once the branch exists: a new file is written; an existing
      one is looked up first, then written with its SHA or removed. */
  function FileCalls(q: Proposal, fileSha: string): (r: seq<Call>)
    ensures |r| == if q.change.Create? then 1 else 2
    ensures !q.change.Create? ==> r[0] == Call.GetFileInfo(q.path)
  {
    match q.change
    case Create(content) => [Call.PutFile(q.path, content, q.message, q.branch, None)]
    case Update(content) => [Call.GetFileInfo(q.path), Call.PutFile(q.path, content, q.message, q.branch, SentSha(Some(fileSha)))]
    case Remove => [Call.GetFileInfo(q.path), Call.DeleteFile(q.path, q.message, q.branch, fileSha)]
  }

  /** The calls made for proposal `q` when the main branch is at `mainSha` and the file
      at `fileSha`: create the branch, change the file on it, then open the pull request
      from the branch into `main`. */
  function ProposalCalls(q: Proposal, mainSha: string, fileSha: string): (r: seq<Call>)
    ensures |r| == if q.change.Create? then 4 else 5
    ensures r[0] == Call.GetMainBranchSha && r[1] == Call.CreateBranch(q.branch, mainSha)
    ensures r[|r| - 1] == Call.CreatePullRequest(q.prTitle, q.branch, "main", q.prBody)
  {
    BranchCalls(q.branch, mainSha) + FileCalls(q, fileSha) + [Call.CreatePullRequest(q.prTitle, q.branch, "main", q.prBody)]
  }

  /** How a proposal's run splits at the end of its branch calls `b` and its file calls
      `f`: it stops where `b` stops, else where `f` stops, else it ends on the request for
      the pull request `c`. */
  lemma ProposalRun(respond: seq<Call> -> Result<Reply>, t0: seq<Call>, b: seq<Call>, f: seq<Call>, c: Call)
    ensures RunOf(respond, t0, b).error.Some? ==> RunOf(respond, t0, b + f + [c]) == RunOf(respond, t0, b)
    ensures RunOf(respond, t0, b).error.None? && RunOf(respond, t0 + b, f).error.Some? ==>
      RunOf(respond, t0, b + f + [c]) == Run(b + RunOf(respond, t0 + b, f).made, RunOf(respond, t0 + b, f).error)
    ensures RunOf(respond, t0, b).error.None? && RunOf(respond, t0 + b, f).error.None? ==>
      RunOf(respond, t0, b + f + [c]) == Run(b + f + [c], Refusal(c, respond(t0 + b + f + [c])))
  {
    assert b + f + [c] == b + (f + [c]);
    RunSeq(respond, t0, b, f + [c]);
    if RunOf(respond, t0, b).error.None? {
      RunSeq(respond, t0 + b, f, [c]);
      if RunOf(respond, t0 + b, f).error.None? {
        RunNext(respond, t0 + b, f, c);
        assert t0 + b + f + [c] == (t0 + b) + f + [c];
      }
    }
  }

  /** The main-branch SHA the repository answered the first call with. */
  function MainSha(respond: seq<Call> -> Result<Reply>, t0: seq<Call>): string {
    MainShaAt(respond, t0 + [Call.GetMainBranchSha])
  }

  /** The file SHA the repository answered the lookup made right after `t`. */
  function LookedUpSha(respond: seq<Call> -> Result<Reply>, t: seq<Call>, q: Proposal): string {
    FileShaAt(respond, t + [Call.GetFileInfo(q.path)])
  }

  /** The file SHA the repository answered the lookup after the branch was created. */
  function FileSha(respond: seq<Call> -> Result<Reply>, t0: seq<Call>, q: Proposal): string {
    LookedUpSha(respond, t0 + BranchCalls(q.branch, MainSha(respond, t0)), q)
  }

  /** What `submitRule` proposes. */
  function SubmitProposal(r: RuleSubmissionParams, timestamp: nat, now: string): (q: Proposal)
    ensures q.change == Create(MarkdownContent(r, now)) && q.path == r.fileName
  {
    Proposal(AddBranch(r.fileName, timestamp), r.fileName, Create(MarkdownContent(r, now)),
      "Add new rule: " + r.title, "[Proposal] " + r.title, PRBody(r, false))
  }

  /** What `updateRule` proposes. */
  function UpdateProposal(u: RuleUpdateParams, timestamp: nat, now: string): (q: Proposal)
    ensures q.change == Update(MarkdownContent(u.rule, now)) && q.path == u.originalPath
  {
    Proposal(UpdateBranch(u.originalPath, timestamp), u.originalPath, Update(MarkdownContent(u.rule, now)),
      "Update rule: " + u.rule.title, "[Update] " + u.rule.title, PRBody(u.rule, true))
  }

  /** What `deleteRule` proposes. */
  function DeleteProposal(d: RuleDeleteParams, timestamp: nat): (q: Proposal)
    ensures q.change == Remove && q.path == d.originalPath
  {
    Proposal(DeleteBranch(d.originalPath, timestamp), d.originalPath, Remove,
      "Delete rule: " + d.title, "[Delete] " + d.title, DeleteBody(d))
  }

  /** `RuleSubmissionService` over the repository it reaches through its Git and
      pull-request services. */
  class RuleSubmissionService {
    const remote: Remote

    constructor(remote: Remote)
      ensures this.remote == remote
    {
      this.remote := remote;
    }

    /** `submitRule`, given `Date.now()` and the date part of the clock. */
    method SubmitRule(r: RuleSubmissionParams, timestamp: nat, now: string) returns (pr: Result<PullRequest>)
      modifies remote
      ensures var t0 := old(remote.trace);
        var q := SubmitProposal(r, timestamp, now);
        var run := RunOf(remote.respond, t0, ProposalCalls(q, MainSha(remote.respond, t0), FileSha(remote.respond, t0, q)));
        remote.trace == t0 + run.made && pr == Passed(run, PullRequestOf(remote.respond(remote.trace)))
    {
      pr := Propose(SubmitProposal(r, timestamp, now));
    }

    /** `updateRule`, given `Date.now()` and the date part of the clock. */
    method UpdateRule(u: RuleUpdateParams, timestamp: nat, now: string) returns (pr: Result<PullRequest>)
      modifies remote
      ensures var t0 := old(remote.trace);
        var q := UpdateProposal(u, timestamp, now);
        var run := RunOf(remote.respond, t0, ProposalCalls(q, MainSha(remote.respond, t0), FileSha(remote.respond, t0, q)));
        remote.trace == t0 + run.made && pr == Passed(run, PullRequestOf(remote.respond(remote.trace)))
    {
      pr := Propose(UpdateProposal(u, timestamp, now));
    }

    /** `deleteRule`, given `Date.now()`. */
    method DeleteRule(d: RuleDeleteParams, timestamp: nat) returns (pr: Result<PullRequest>)
      modifies remote
      ensures var t0 := old(remote.trace);
        var q := DeleteProposal(d, timestamp);
        var run := RunOf(remote.respond, t0, ProposalCalls(q, MainSha(remote.respond, t0), FileSha(remote.respond, t0, q)));
        remote.trace == t0 + run.made && pr == Passed(run, PullRequestOf(remote.respond(remote.trace)))
    {
      pr := Propose(DeleteProposal(d, timestamp));
    }

    /** The calls the three operations share, each awaited before the next: the
        repository receives the proposal's calls up to the first one it refuses, whose
        error is passed on, and otherwise the result is the pull request it answered. */
    method Propose(q: Proposal) returns (pr: Result<PullRequest>)
      modifies remote
      ensures var t0 := old(remote.trace);
        var run := RunOf(remote.respond, t0, ProposalCalls(q, MainSha(remote.respond, t0), FileSha(remote.respond, t0, q)));
        remote.trace == t0 + run.made && pr == Passed(run, PullRequestOf(remote.respond(remote.trace)))
    {
      ghost var t0 := remote.trace;
      ghost var branchCalls := BranchCalls(q.branch, MainSha(remote.respond, t0));
      ghost var fileCalls := FileCalls(q, FileSha(remote.respond, t0, q));
      ghost var prCall := Call.CreatePullRequest(q.prTitle, q.branch, "main", q.prBody);
      ProposalRun(remote.respond, t0, branchCalls, fileCalls, prCall);
      ghost var plan := ProposalCalls(q, MainSha(remote.respond, t0), FileSha(remote.respond, t0, q));
      assert plan == branchCalls + fileCalls + [prCall];
      var created := OpenBranch(q.branch);
      if created.Failure? {
        return Failure(created.error);
      }
      var changed := ChangeFile(q);
      if changed.Failure? {
        assert remote.trace == t0 + (branchCalls + RunOf(remote.respond, t0 + branchCalls, fileCalls).made);
        return Failure(changed.error);
      }
      assert remote.trace == t0 + branchCalls + fileCalls;
      pr := remote.CreatePullRequest(q.prTitle, q.branch, "main", q.prBody);
      assert remote.trace == t0 + branchCalls + fileCalls + [prCall];
      assert Refusal(prCall, remote.respond(remote.trace)) == FailureOf(pr);
    }

    /** `getMainBranchSHA` and `createBranch(branch, mainSHA)`, the second made only when
        the first succeeded; a failure is passed on. */
    method OpenBranch(branch: string) returns (r: Result<()>)
      modifies remote
      ensures var t0 := old(remote.trace);
        var run := RunOf(remote.respond, t0, BranchCalls(branch, MainSha(remote.respond, t0)));
        remote.trace == t0 + run.made && r == Passed(run, Success(()))
    {
      ghost var t0 := remote.trace;
      var mainSha := remote.GetMainBranchSha();
      ghost var plan := BranchCalls(branch, MainSha(remote.respond, t0));
      assert remote.trace == t0 + plan[..1];
      RunStep(remote.respond, t0, plan, 0);
      if mainSha.Failure? {
        RunHalts(remote.respond, t0, plan, 1);
        return Failure(mainSha.error);
      }
      r := remote.CreateBranch(branch, mainSha.value);
      assert remote.trace == t0 + plan[..2];
      RunStep(remote.respond, t0, plan, 1);
      assert plan[..2] == plan;
    }

    /** The change to the file on the proposal's branch, each call made only when the one
        before succeeded; a failure is passed on. */
    method ChangeFile(q: Proposal) returns (r: Result<()>)
      modifies remote
      ensures var t1 := old(remote.trace);
        var run := RunOf(remote.respond, t1, FileCalls(q, LookedUpSha(remote.respond, t1, q)));
        remote.trace == t1 + run.made && r == Passed(run, Success(()))
    {
      ghost var t1 := remote.trace;
      ghost var plan := FileCalls(q, LookedUpSha(remote.respond, t1, q));
      if q.change.Create? {
        r := remote.PutFile(q.path, q.change.content, q.message, q.branch, None);
        assert remote.trace == t1 + plan[..1];
        RunStep(remote.respond, t1, plan, 0);
        assert plan[..1] == plan;
        return;
      }
      var fileInfo := remote.GetFileInfo(q.path);
      assert remote.trace == t1 + plan[..1];
      RunStep(remote.respond, t1, plan, 0);
      if fileInfo.Failure? {
        RunHalts(remote.respond, t1, plan, 1);
        return Failure(fileInfo.error);
      }
      if q.change.Update? {
        r := remote.PutFile(q.path, q.change.newContent, q.message, q.branch, Some(fileInfo.value.sha));
      } else {
        r := remote.DeleteFile(q.path, q.message, q.branch, fileInfo.value.sha);
      }
      assert remote.trace == t1 + plan[..2];
      RunStep(remote.respond, t1, plan, 1);
      assert plan[..2] == plan;
    }
  }
}
