/** The GitHub repository as the submission code sees it: a collaborator that receives
    calls one after another and answers each of them. The calls made so far are recorded
    in `trace`; how the repository answers is a fixed function of the calls it has
    received, so that a caller's contract can name the answer it got. */
module GitRemote {
  import opened Wrappers

  /** One request to the repository, with the arguments the caller passes. */
  datatype Call =
    | GetMainBranchSha
    | CreateBranch(branch: string, fromSha: string)
    | GetFileInfo(path: string)
    | PutFile(path: string, content: string, message: string, branch: string, fileSha: Option<string>)
    | DeleteFile(path: string, message: string, branch: string, sha: string)
    | CreatePullRequest(title: string, head: string, base: string, body: string)

  /** The decoded body of a successful response. */
  datatype Reply =
    | ShaReply(sha: string)
    | FileInfoReply(sha: string, content: string)
    | PullRequestReply(url: string, number: int)
    | Done

  datatype FileInfo = FileInfo(sha: string, content: string)

  /** The pull request a submission opened. */
  datatype PullRequest = PullRequest(url: string, number: int)

  /** The answer to a branch lookup: `data.object.sha`. */
  function ShaOf(r: Result<Reply>): (s: Result<string>)
    ensures s.Success? <==> r.Success? && r.value.ShaReply?
    ensures s.Success? ==> s.value == r.value.sha
  {
    match r
    case Failure(e) => Failure(e)
    case Success(ShaReply(sha)) => Success(sha)
    case Success(_) => Failure(Error("unexpected response"))
  }

  function FileInfoOf(r: Result<Reply>): (f: Result<FileInfo>)
    ensures f.Success? <==> r.Success? && r.value.FileInfoReply?
    ensures f.Success? ==> f.value == FileInfo(r.value.sha, r.value.content)
  {
    match r
    case Failure(e) => Failure(e)
    case Success(FileInfoReply(sha, content)) => Success(FileInfo(sha, content))
    case Success(_) => Failure(Error("unexpected response"))
  }

  function PullRequestOf(r: Result<Reply>): (p: Result<PullRequest>)
    ensures p.Success? <==> r.Success? && r.value.PullRequestReply?
    ensures p.Success? ==> p.value == PullRequest(r.value.url, r.value.number)
  {
    match r
    case Failure(e) => Failure(e)
    case Success(PullRequestReply(url, number)) => Success(PullRequest(url, number))
    case Success(_) => Failure(Error("unexpected response"))
  }

  /** The answer to a call whose response body is not used. */
  function DoneOf(r: Result<Reply>): (d: Result<()>)
    ensures d.Success? <==> r.Success?
  {
    match r
    case Failure(e) => Failure(e)
    case Success(_) => Success(())
  }

  /** The main-branch SHA that the repository answers after `calls`, the empty string
      when it answers anything else. */
  function MainShaAt(respond: seq<Call> -> Result<Reply>, calls: seq<Call>): string {
    var r := ShaOf(respond(calls));
    if r.Success? then r.value else ""
  }

  /** The file SHA that the repository answers after `calls`, the empty string when it
      answers anything else. */
  function FileShaAt(respond: seq<Call> -> Result<Reply>, calls: seq<Call>): string {
    var r := FileInfoOf(respond(calls));
    if r.Success? then r.value.sha else ""
  }

  /** The `sha` field a file write sends: only a non-empty one (`if (sha) body.sha = sha`). */
  function SentSha(sha: Option<string>): (r: Option<string>)
    ensures r.Some? <==> sha.Some? && sha.value != ""
    ensures r.Some? ==> r == sha
  {
    if sha.Some? && sha.value != "" then sha else None
  }

  /** The error, if any, of a decoded answer. */
  function FailureOf<T>(r: Result<T>): (e: Option<Error>)
    ensures e.Some? <==> r.Failure?
    ensures e.Some? ==> e.value == r.error
  {
    if r.Failure? then Some(r.error) else None
  }

  /** The error the caller of `call` throws on answer `r`: that of the decoding it applies
      to the answer, which fails on a failed answer and on an answer of the wrong kind. */
  function Refusal(call: Call, r: Result<Reply>): (e: Option<Error>)
    ensures r.Failure? ==> e == Some(r.error)
  {
    match call
    case GetMainBranchSha => FailureOf(ShaOf(r))
    case GetFileInfo(_) => FailureOf(FileInfoOf(r))
    case CreatePullRequest(_, _, _, _) => FailureOf(PullRequestOf(r))
    case _ => FailureOf(DoneOf(r))
  }

  /** The calls of a plan that were made, and the error that stopped it, if one did. */
  datatype Run = Run(made: seq<Call>, error: Option<Error>)

  /** The plan `plan` carried out after `t0` by awaiting each call before the next: the
      calls are made in order until one is refused; with no error the whole plan was
      made. `RunPrefix`, `RunRefused` and `RunAccepted` add that the calls made are a
      prefix of the plan, that the error is the refused last call's, and that every
      call before it was accepted. */
  function RunOf(respond: seq<Call> -> Result<Reply>, t0: seq<Call>, plan: seq<Call>): (run: Run)
    ensures |run.made| <= |plan|
    ensures run.error.None? ==> run.made == plan
    decreases |plan|
  {
    if plan == [] then Run([], None)
    else
      var before := RunOf(respond, t0, plan[..|plan| - 1]);
      if before.error.Some? then before
      else Run(plan, Refusal(plan[|plan| - 1], respond(t0 + plan)))
  }

  /** The calls a run made are a prefix of its plan, and at least its first call. */
  lemma {:induction false} RunPrefix(respond: seq<Call> -> Result<Reply>, t0: seq<Call>, plan: seq<Call>)
    ensures var run := RunOf(respond, t0, plan);
      run.made == plan[..|run.made|] && (plan != [] ==> run.made != [])
    decreases |plan|
  {
    if plan != [] {
      var init := plan[..|plan| - 1];
      RunPrefix(respond, t0, init);
      var made := RunOf(respond, t0, init).made;
      assert init[..|made|] == plan[..|made|];
    }
  }

  /** A run that stopped did so on its last call, with that call's error. */
  lemma {:induction false} RunRefused(respond: seq<Call> -> Result<Reply>, t0: seq<Call>, plan: seq<Call>)
    requires RunOf(respond, t0, plan).error.Some?
    ensures var run := RunOf(respond, t0, plan);
      run.made != [] && Refusal(run.made[|run.made| - 1], respond(t0 + run.made)) == run.error
    decreases |plan|
  {
    var init := plan[..|plan| - 1];
    if RunOf(respond, t0, init).error.Some? {
      RunRefused(respond, t0, init);
    }
  }

  /** Every call a run made before its last was accepted, and so was the last when the
      run went through. */
  lemma {:induction false} RunAccepted(respond: seq<Call> -> Result<Reply>, t0: seq<Call>, plan: seq<Call>, j: nat)
    requires var run := RunOf(respond, t0, plan);
      j < |run.made| && (run.error.None? || j < |run.made| - 1)
    ensures Refusal(plan[j], respond(t0 + plan[..j + 1])).None?
    decreases |plan|
  {
    var init := plan[..|plan| - 1];
    var before := RunOf(respond, t0, init);
    if before.error.Some? || j < |plan| - 1 {
      RunAccepted(respond, t0, init, j);
      assert init[..j + 1] == plan[..j + 1];
    } else {
      assert plan[..j + 1] == plan;
    }
  }

  /** A run that went through `done` goes on with the next call. */
  lemma RunNext(respond: seq<Call> -> Result<Reply>, t0: seq<Call>, done: seq<Call>, c: Call)
    requires RunOf(respond, t0, done).error.None?
    ensures RunOf(respond, t0, done + [c]) == Run(done + [c], Refusal(c, respond(t0 + done + [c])))
  {
    var plan := done + [c];
    assert plan[..|plan| - 1] == done && plan[|plan| - 1] == c;
    assert t0 + plan == t0 + done + [c];
  }

  /** A run stopped within `done` stops there whatever follows. */
  lemma {:induction false} RunStops(respond: seq<Call> -> Result<Reply>, t0: seq<Call>, done: seq<Call>, rest: seq<Call>)
    requires RunOf(respond, t0, done).error.Some?
    ensures RunOf(respond, t0, done + rest) == RunOf(respond, t0, done)
    decreases |rest|
  {
    if rest == [] {
      assert done + rest == done;
    } else {
      var plan := done + rest;
      var init := rest[..|rest| - 1];
      assert plan[..|plan| - 1] == done + init;
      RunStops(respond, t0, done, init);
    }
  }

  /** `RunNext` for the call after the first `k` of a plan. */
  lemma RunStep(respond: seq<Call> -> Result<Reply>, t0: seq<Call>, plan: seq<Call>, k: nat)
    requires k < |plan| && RunOf(respond, t0, plan[..k]).error.None?
    ensures RunOf(respond, t0, plan[..k + 1]) == Run(plan[..k + 1], Refusal(plan[k], respond(t0 + plan[..k + 1])))
  {
    RunNext(respond, t0, plan[..k], plan[k]);
    assert plan[..k] + [plan[k]] == plan[..k + 1];
  }

  /** `RunStops` for a plan stopped within its first `k` calls. */
  lemma RunHalts(respond: seq<Call> -> Result<Reply>, t0: seq<Call>, plan: seq<Call>, k: nat)
    requires k <= |plan| && RunOf(respond, t0, plan[..k]).error.Some?
    ensures RunOf(respond, t0, plan) == RunOf(respond, t0, plan[..k])
  {
    RunStops(respond, t0, plan[..k], plan[k..]);
    assert plan[..k] + plan[k..] == plan;
  }

  /** Running `a` then `b` is running `a`, then, if it went through, running `b` after it. */
  lemma {:induction false} RunSeq(respond: seq<Call> -> Result<Reply>, t0: seq<Call>, a: seq<Call>, b: seq<Call>)
    ensures var ra := RunOf(respond, t0, a);
      var rb := RunOf(respond, t0 + a, b);
      RunOf(respond, t0, a + b) == if ra.error.Some? then ra else Run(a + rb.made, rb.error)
    decreases |b|
  {
    var ra := RunOf(respond, t0, a);
    if ra.error.Some? {
      RunStops(respond, t0, a, b);
    } else if b == [] {
      assert a + b == a;
    } else {
      var init := b[..|b| - 1];
      var c := b[|b| - 1];
      RunSeq(respond, t0, a, init);
      RunSeqStep(respond, t0, a, init, c);
      assert init + [c] == b;
    }
  }

  /** The step of `RunSeq` for one more call of `b`. */
  lemma RunSeqStep(respond: seq<Call> -> Result<Reply>, t0: seq<Call>, a: seq<Call>, init: seq<Call>, c: Call)
    requires RunOf(respond, t0, a).error.None?
    requires RunOf(respond, t0, a + init) == Run(a + RunOf(respond, t0 + a, init).made, RunOf(respond, t0 + a, init).error)
    ensures RunOf(respond, t0, a + (init + [c])) == Run(a + RunOf(respond, t0 + a, init + [c]).made, RunOf(respond, t0 + a, init + [c]).error)
  {
    assert a + (init + [c]) == (a + init) + [c];
    if RunOf(respond, t0 + a, init).error.None? {
      RunSeqGoes(respond, t0, a, init, c);
    } else {
      RunStops(respond, t0 + a, init, [c]);
      RunStops(respond, t0, a + init, [c]);
    }
  }

  /** `RunSeqStep` when `init` went through. */
  lemma RunSeqGoes(respond: seq<Call> -> Result<Reply>, t0: seq<Call>, a: seq<Call>, init: seq<Call>, c: Call)
    requires RunOf(respond, t0 + a, init).error.None?
    requires RunOf(respond, t0, a + init).error.None?
    ensures RunOf(respond, t0, (a + init) + [c]) == Run(a + (init + [c]), RunOf(respond, t0 + a, init + [c]).error)
  {
    var done, tail := a + init, init + [c];
    RunNext(respond, t0, done, c);
    RunNext(respond, t0 + a, init, c);
    var x, y := t0 + done + [c], (t0 + a) + init + [c];
    assert x == y;
    assert done + [c] == a + tail;
    assert respond(x) == respond(y);
    assert RunOf(respond, t0, done + [c]).error == RunOf(respond, t0 + a, tail).error;
  }

  /** What a caller that rethrows passes on after a run whose last call answers with
      `last` when it went through. */
  function Passed<T>(run: Run, last: Result<T>): Result<T> {
    if run.error.Some? then Failure(run.error.value) else last
  }

  class Remote {
    /** The calls received so far, oldest first. */
    var trace: seq<Call>
    /** The answer to the last call of a trace. */
    const respond: seq<Call> -> Result<Reply>

    constructor(respond: seq<Call> -> Result<Reply>)
      ensures trace == [] && this.respond == respond
    {
      trace := [];
      this.respond := respond;
    }

    method Request(call: Call) returns (r: Result<Reply>)
      modifies this
      ensures trace == old(trace) + [call]
      ensures r == respond(trace)
    {
      trace := trace + [call];
      r := respond(trace);
    }

    /** `getMainBranchSHA` */
    method GetMainBranchSha() returns (r: Result<string>)
      modifies this
      ensures trace == old(trace) + [Call.GetMainBranchSha]
      ensures r == ShaOf(respond(trace))
    {
      var reply := Request(Call.GetMainBranchSha);
      r := ShaOf(reply);
    }

    /** `createBranch(branchName, fromSHA)` */
    method CreateBranch(branch: string, fromSha: string) returns (r: Result<()>)
      modifies this
      ensures trace == old(trace) + [Call.CreateBranch(branch, fromSha)]
      ensures r == DoneOf(respond(trace))
    {
      var reply := Request(Call.CreateBranch(branch, fromSha));
      r := DoneOf(reply);
    }

    /** `getFileInfo(path)` */
    method GetFileInfo(path: string) returns (r: Result<FileInfo>)
      modifies this
      ensures trace == old(trace) + [Call.GetFileInfo(path)]
      ensures r == FileInfoOf(respond(trace))
    {
      var reply := Request(Call.GetFileInfo(path));
      r := FileInfoOf(reply);
    }

    /** `createOrUpdateFile(path, content, message, branch, sha?)` */
    method PutFile(path: string, content: string, message: string, branch: string, sha: Option<string>) returns (r: Result<()>)
      modifies this
      ensures trace == old(trace) + [Call.PutFile(path, content, message, branch, SentSha(sha))]
      ensures r == DoneOf(respond(trace))
    {
      var reply := Request(Call.PutFile(path, content, message, branch, SentSha(sha)));
      r := DoneOf(reply);
    }

    /** `deleteFile(path, message, branch, sha)` */
    method DeleteFile(path: string, message: string, branch: string, sha: string) returns (r: Result<()>)
      modifies this
      ensures trace == old(trace) + [Call.DeleteFile(path, message, branch, sha)]
      ensures r == DoneOf(respond(trace))
    {
      var reply := Request(Call.DeleteFile(path, message, branch, sha));
      r := DoneOf(reply);
    }

    /** `createPullRequest(title, head, body)` against `base`. */
    method CreatePullRequest(title: string, head: string, base: string, body: string) returns (r: Result<PullRequest>)
      modifies this
      ensures trace == old(trace) + [Call.CreatePullRequest(title, head, base, body)]
      ensures r == PullRequestOf(respond(trace))
    {
      var reply := Request(Call.CreatePullRequest(title, head, base, body));
      r := PullRequestOf(reply);
    }
  }
}
