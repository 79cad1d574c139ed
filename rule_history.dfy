/** The build step that writes each rule's version history (scripts/generate-history.js):
    the parsing of the `git log` text of one file and the map from history key to commits
    over the files the directory walk finds. */
module RuleHistory {
  import opened Wrappers
  import opened Text
  import Rules

  /** One history record. The hash is always there; a line with fewer than four
      `|`-separated fields leaves the later ones `undefined`. */
  datatype Commit = Commit(hash: string, author: Option<string>, date: Option<string>, message: Option<string>)

  /** Element `i` of an array destructuring, `undefined` past its end. */
  function Piece(pieces: seq<string>, i: nat): (r: Option<string>)
    ensures r.Some? <==> i < |pieces|
    ensures r.Some? ==> r.value == pieces[i]
  {
    if i < |pieces| then Some(pieces[i]) else None
  }

  /** `const [hash, author, date, message] = line.split('|')` */
  function ParseLine(line: string): (c: Commit)
    ensures c.hash == Split(line, '|')[0] && '|' !in c.hash
    ensures c.message.Some? <==> |Split(line, '|')| >= 4
  {
    var pieces := Split(line, '|');
    Commit(pieces[0], Piece(pieces, 1), Piece(pieces, 2), Piece(pieces, 3))
  }

  /** `getGitHistory` over the text `git log` printed, `None` when running it threw:
      nothing for a failure or an empty log, otherwise one record per line, in order. */
  function GitHistory(log: Option<string>): (r: seq<Commit>)
    ensures log.None? || log.value == "" ==> r == []
    ensures log.Some? && log.value != "" ==>
      && |r| == |Split(log.value, '\n')|
      && forall i :: 0 <= i < |r| ==> r[i] == ParseLine(Split(log.value, '\n')[i])
  {
    if log.None? || log.value == "" then []
    else
      var lines := Split(log.value, '\n');
      seq(|lines|, i requires 0 <= i < |lines| => ParseLine(lines[i]))
  }

  /** One commit as `git log --pretty=format:"%H|%an|%ad|%s"` prints it. */
  datatype LogEntry = LogEntry(hash: string, author: string, date: string, subject: string)

  function LogLine(e: LogEntry): string {
    e.hash + "|" + e.author + "|" + e.date + "|" + e.subject
  }

  /** The whole output: one line per commit, separated by newlines, with no final one. */
  function LogText(entries: seq<LogEntry>): string {
    Join(seq(|entries|, i requires 0 <= i < |entries| => LogLine(entries[i])), "\n")
  }

  /** A line whose hash, author and date hold no `|` parses back into its fields; the
      message is the subject up to its first `|`, the rest being dropped. */
  lemma {:induction false} ParseLogLine(e: LogEntry)
    requires '|' !in e.hash && '|' !in e.author && '|' !in e.date
    ensures ParseLine(LogLine(e)) == Commit(e.hash, Some(e.author), Some(e.date), Some(Split(e.subject, '|')[0]))
    ensures '|' !in e.subject ==> ParseLine(LogLine(e)).message == Some(e.subject)
  {
    var rest := Split(e.subject, '|');
    var parts := [e.hash] + ([e.author] + ([e.date] + rest));
    JoinSplit(e.subject, '|');
    JoinCons(e.date, rest, "|");
    JoinCons(e.author, [e.date] + rest, "|");
    JoinCons(e.hash, [e.author] + ([e.date] + rest), "|");
    assert Join(parts, "|") == LogLine(e);
    assert forall i :: 0 <= i < |parts| ==> '|' !in parts[i] by {
      forall i | 0 <= i < |parts| ensures '|' !in parts[i] {
        if i >= 3 {
          assert parts[i] == rest[i - 3];
        } else {
          assert parts[i] == [e.hash, e.author, e.date][i];
        }
      }
    }
    SplitJoin(parts, '|');
    if '|' !in e.subject {
      assert rest == [e.subject];
    }
  }

  /** The records of a log whose fields hold no newline and whose hash, author and date
      hold no `|` are its commits, one per commit, in order. */
  lemma ParseLogText(entries: seq<LogEntry>)
    requires forall i :: 0 <= i < |entries| ==> NoNewline(entries[i])
    requires forall i :: 0 <= i < |entries| ==> '|' !in entries[i].hash && '|' !in entries[i].author && '|' !in entries[i].date
    ensures |GitHistory(Some(LogText(entries)))| == |entries|
    ensures forall i :: 0 <= i < |entries| ==>
      GitHistory(Some(LogText(entries)))[i]
        == Commit(entries[i].hash, Some(entries[i].author), Some(entries[i].date), Some(Split(entries[i].subject, '|')[0]))
  {
    var lines := seq(|entries|, i requires 0 <= i < |entries| => LogLine(entries[i]));
    if entries == [] {
      assert LogText(entries) == "";
    } else {
      assert |lines[0]| >= 3 && |Join(lines, "\n")| >= |lines[0]|;
      assert forall i :: 0 <= i < |lines| ==> '\n' !in lines[i];
      SplitJoin(lines, '\n');
      forall i | 0 <= i < |entries|
        ensures GitHistory(Some(LogText(entries)))[i]
          == Commit(entries[i].hash, Some(entries[i].author), Some(entries[i].date), Some(Split(entries[i].subject, '|')[0]))
      {
        ParseLogLine(entries[i]);
      }
    }
  }

  predicate NoNewline(e: LogEntry) {
    '\n' !in e.hash && '\n' !in e.author && '\n' !in e.date && '\n' !in e.subject
  }

  /** `relativePath.replace(/\\/g, '/').replace(/\.md$/, '')` */
  function HistoryKey(relativePath: string): string {
    Rules.StripMd(ReplaceChar(relativePath, '\\', '/'))
  }

  /** The history key and the corpus slug derived from a path are the same, although
      the two replacements run in the opposite order. */
  lemma HistoryKeyIsSlug(relativePath: string)
    ensures HistoryKey(relativePath) == Rules.SlugFromPath(relativePath)
  {
    var replaced := ReplaceChar(relativePath, '\\', '/');
    var n := |relativePath|;
    if n >= 3 {
      assert replaced[n - 3..] == ".md" <==> relativePath[n - 3..] == ".md" by {
        assert replaced[n - 3] == '.' <==> relativePath[n - 3] == '.';
        assert replaced[n - 2] == 'm' <==> relativePath[n - 2] == 'm';
        assert replaced[n - 1] == 'd' <==> relativePath[n - 1] == 'd';
        assert relativePath[n - 3..] == [relativePath[n - 3], relativePath[n - 2], relativePath[n - 1]];
        assert replaced[n - 3..] == [replaced[n - 3], replaced[n - 2], replaced[n - 1]];
      }
    }
    assert EndsWith(replaced, ".md") <==> EndsWith(relativePath, ".md");
  }

  /** A file the walk finds: its path relative to the rules directory and the `git log`
      text for it, `None` when running git threw. */
  datatype HistorySource = HistorySource(relativePath: string, log: Option<string>)

  predicate IsMarkdown(f: HistorySource) {
    EndsWith(f.relativePath, ".md")
  }

  /** The history map after the files in walk order: each markdown file sets its key,
      a later file with the same key replacing an earlier one. */
  function History(files: seq<HistorySource>): map<string, seq<Commit>> {
    if files == [] then map[]
    else
      var last := files[|files| - 1];
      var before := History(files[..|files| - 1]);
      if IsMarkdown(last) then before[HistoryKey(last.relativePath) := GitHistory(last.log)] else before
  }

  /** The keys are exactly those of the markdown files. */
  lemma {:induction false} HistoryKeys(files: seq<HistorySource>, key: string)
    ensures key in History(files) <==> exists i :: 0 <= i < |files| && IsMarkdown(files[i]) && HistoryKey(files[i].relativePath) == key
  {
    if files != [] {
      var init := files[..|files| - 1];
      HistoryKeys(init, key);
      assert forall i :: 0 <= i < |init| ==> init[i] == files[i];
    }
  }

  /** A key holds the history of the last markdown file that has it. */
  lemma {:induction false} HistoryLastWins(files: seq<HistorySource>, j: nat)
    requires j < |files| && IsMarkdown(files[j])
    requires forall i :: j < i < |files| && IsMarkdown(files[i]) ==> HistoryKey(files[i].relativePath) != HistoryKey(files[j].relativePath)
    ensures HistoryKey(files[j].relativePath) in History(files)
    ensures History(files)[HistoryKey(files[j].relativePath)] == GitHistory(files[j].log)
  {
    var init := files[..|files| - 1];
    if j < |files| - 1 {
      assert init[j] == files[j];
      assert forall i :: j < i < |init| ==> init[i] == files[i];
      HistoryLastWins(init, j);
    }
  }

  /** `getAllRules` of the history script, with the recursive walk flattened into the
      list of files it visits, in order: `Object.assign` of a subdirectory's results
      performs that subdirectory's assignments in the same order. */
  method CollectHistory(files: seq<HistorySource>) returns (results: map<string, seq<Commit>>)
    ensures results == History(files)
    ensures forall key :: key in results <==> exists i :: 0 <= i < |files| && IsMarkdown(files[i]) && HistoryKey(files[i].relativePath) == key
  {
    results := map[];
    var i := 0;
    while i < |files|
      invariant 0 <= i <= |files|
      invariant results == History(files[..i])
    {
      var file := files[i];
      assert files[..i + 1][..i] == files[..i];
      if EndsWith(file.relativePath, ".md") {
        var slug := HistoryKey(file.relativePath);
        results := results[slug := GitHistory(file.log)];
      }
      i := i + 1;
    }
    assert files[..i] == files;
    forall key ensures key in results <==> exists i :: 0 <= i < |files| && IsMarkdown(files[i]) && HistoryKey(files[i].relativePath) == key {
      HistoryKeys(files, key);
    }
  }
}
