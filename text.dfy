/** The JavaScript string operations the core relies on, over `string` (a sequence of
    Unicode scalar values). Case mapping is ASCII only. */
module Text {

  /** The characters that the regular-expression class `\s` matches and that
      `String.prototype.trim` removes: ECMAScript white space and line terminators. */
  predicate IsSpace(c: char) {
    c in SpaceChars || '\U{2000}' <= c <= '\U{200A}'
  }

  const SpaceChars: set<char> := {
    ' ', '\t', '\n', '\r', '\U{000B}', '\U{000C}', '\U{00A0}', '\U{1680}',
    '\U{2028}', '\U{2029}', '\U{202F}', '\U{205F}', '\U{3000}', '\U{FEFF}'
  }

  /** The regular-expression class `\w`. */
  predicate IsWordChar(c: char) {
    'a' <= c <= 'z' || 'A' <= c <= 'Z' || '0' <= c <= '9' || c == '_'
  }

  /** The regular-expression class `[a-z0-9]`. */
  predicate IsLowerAlnum(c: char) {
    'a' <= c <= 'z' || '0' <= c <= '9'
  }

  function LowerChar(c: char): char {
    if 'A' <= c <= 'Z' then (c as int + 32) as char else c
  }

  /** `s.toLowerCase()` on the ASCII letters; every other character is kept. */
  function Lower(s: string): (r: string)
    ensures |r| == |s|
    ensures forall i :: 0 <= i < |s| ==> r[i] == LowerChar(s[i])
    ensures forall i :: 0 <= i < |r| ==> !('A' <= r[i] <= 'Z')
  {
    seq(|s|, i requires 0 <= i < |s| => LowerChar(s[i]))
  }

  /** Lower-casing works character by character. */
  lemma LowerAppend(x: string, y: string)
    ensures Lower(x + y) == Lower(x) + Lower(y)
  {
    assert forall i :: 0 <= i < |x + y| ==> Lower(x + y)[i] == (Lower(x) + Lower(y))[i];
  }

  lemma LowerAround(a: string, c: char, b: string)
    ensures Lower(a + [c] + b) == Lower(a) + [LowerChar(c)] + Lower(b)
  {
    LowerAppend(a + [c], b);
    LowerAppend(a, [c]);
  }

  /** Lower-casing twice changes nothing more. */
  lemma LowerIdempotent(s: string)
    ensures Lower(Lower(s)) == Lower(s)
  {
    assert forall i :: 0 <= i < |s| ==> LowerChar(LowerChar(s[i])) == LowerChar(s[i]);
  }

  /** `s.startsWith(p)` */
  predicate StartsWith(s: string, p: string) {
    |p| <= |s| && s[..|p|] == p
  }

  lemma StartsWithSelf(s: string)
    ensures StartsWith(s, s)
  {
    assert s[..|s|] == s;
  }

  lemma StartsWithAppend(a: string, b: string, p: string)
    requires StartsWith(a, p)
    ensures StartsWith(a + b, p)
  {
    assert (a + b)[..|p|] == a[..|p|];
  }

  /** `s.endsWith(p)` */
  predicate EndsWith(s: string, p: string) {
    |p| <= |s| && s[|s| - |p|..] == p
  }

  /** `t` occurs in `s` at index `i`. */
  predicate OccursAt(s: string, t: string, i: int) {
    0 <= i <= |s| - |t| && s[i..i + |t|] == t
  }

  /** `s.includes(t)` */
  predicate Contains(s: string, t: string) {
    exists i | 0 <= i <= |s| - |t| :: OccursAt(s, t, i)
  }

  lemma ContainsInMiddle(a: string, t: string, b: string)
    ensures Contains(a + t + b, t)
  {
    var s := a + t + b;
    assert s[|a|..|a| + |t|] == t;
    assert OccursAt(s, t, |a|);
  }

  lemma ContainsExtended(s: string, t: string, a: string, b: string)
    requires Contains(s, t)
    ensures Contains(a + s + b, t)
  {
    var i :| 0 <= i <= |s| - |t| && OccursAt(s, t, i);
    var w := a + s + b;
    assert w[|a| + i..|a| + i + |t|] == s[i..i + |t|];
    assert OccursAt(w, t, |a| + i);
  }

  /** A text made of a lead, a middle and a tail starts with the lead, ends with the tail
      and contains the middle. */
  lemma Framed3(lead: string, middle: string, tail: string)
    ensures var s := lead + middle + tail;
      StartsWith(s, lead) && EndsWith(s, tail) && Contains(s, middle)
  {
    var s := lead + middle + tail;
    assert s[..|lead|] == lead;
    assert s[|s| - |tail|..] == tail;
    ContainsInMiddle(lead, middle, tail);
  }

  /** A text that starts with `p` keeps `p` as a prefix and anything it contains when
      more is appended. */
  lemma Extended(s: string, more: string, t: string)
    ensures StartsWith(s + more, s)
    ensures Contains(s, t) ==> Contains(s + more, t)
  {
    assert (s + more)[..|s|] == s;
    if Contains(s, t) {
      ContainsExtended(s, t, "", more);
      assert "" + s + more == s + more;
    }
  }

  /** `s.replace(/from/g, to)` for a single character `from`. */
  function ReplaceChar(s: string, from: char, to: char): (r: string)
    ensures |r| == |s|
    ensures forall i :: 0 <= i < |s| ==> r[i] == if s[i] == from then to else s[i]
  {
    seq(|s|, i requires 0 <= i < |s| => if s[i] == from then to else s[i])
  }

  /** Removes leading white space. */
  function TrimStart(s: string): (r: string)
    ensures |r| <= |s| && r == s[|s| - |r|..]
    ensures r == [] || !IsSpace(r[0])
    ensures forall i :: 0 <= i < |s| - |r| ==> IsSpace(s[i])
    decreases |s|
  {
    if s != [] && IsSpace(s[0]) then TrimStart(s[1..]) else s
  }

  /** Removes trailing white space. */
  function TrimEnd(s: string): (r: string)
    ensures |r| <= |s| && r == s[..|r|]
    ensures r == [] || !IsSpace(r[|r| - 1])
    ensures forall i :: |r| <= i < |s| ==> IsSpace(s[i])
    decreases |s|
  {
    if s != [] && IsSpace(s[|s| - 1]) then TrimEnd(s[..|s| - 1]) else s
  }

  /** `s.trim()`: white space dropped from both ends, and only from the ends. */
  function Trim(s: string): (r: string)
    ensures |r| <= |s|
    ensures r == [] || (!IsSpace(r[0]) && !IsSpace(r[|r| - 1]))
    ensures (s == [] || (!IsSpace(s[0]) && !IsSpace(s[|s| - 1]))) ==> r == s
  {
    var t := TrimStart(s);
    var r := TrimEnd(t);
    assert r != [] ==> r[0] == t[0];
    r
  }

  /** The trimmed text is a contiguous piece of the text, starting at `a`. */
  function TrimOffset(s: string): (a: nat)
    ensures a + |Trim(s)| <= |s| && Trim(s) == s[a..a + |Trim(s)|]
  {
    var t := TrimStart(s);
    var a := |s| - |t|;
    var r := TrimEnd(t);
    assert t == s[a..] && r == t[..|r|];
    SliceOfSuffix(s, a, |r|);
    assert Trim(s) == r;
    a
  }

  lemma SliceOfSuffix(s: string, a: nat, n: nat)
    requires a + n <= |s|
    ensures s[a..][..n] == s[a..a + n]
  {
  }

  /** Trailing white space of `a + b` is that of `b`, unless `b` is all white space. */
  lemma {:induction false} TrimEndAppend(a: string, b: string)
    ensures TrimEnd(b) != [] ==> TrimEnd(a + b) == a + TrimEnd(b)
    ensures TrimEnd(b) == [] ==> TrimEnd(a + b) == TrimEnd(a)
    decreases |b|
  {
    if b == [] {
      assert a + b == a;
    } else if IsSpace(b[|b| - 1]) {
      assert (a + b)[..|a + b| - 1] == a + b[..|b| - 1];
      TrimEndAppend(a, b[..|b| - 1]);
    }
  }

  /** Trimming a text that starts with `head` keeps `head` whole when its ends are not
      white space. */
  lemma TrimAfterHead(head: string, rest: string)
    requires head != [] && !IsSpace(head[0]) && !IsSpace(head[|head| - 1])
    ensures TrimEnd(rest) != [] ==> Trim(head + rest) == head + TrimEnd(rest)
    ensures TrimEnd(rest) == [] ==> Trim(head + rest) == head
  {
    assert (head + rest)[0] == head[0];
    assert TrimStart(head + rest) == head + rest;
    TrimEndAppend(head, rest);
  }

  /** A block, an empty line and a text, trimmed: the text loses its trailing white space,
      and the empty line goes too when nothing else is left of the text. */
  lemma TrimBlockThenText(head: string, text: string)
    requires head != [] && !IsSpace(head[0]) && !IsSpace(head[|head| - 1])
    ensures TrimEnd(text) != [] ==> Trim(head + "\n\n" + text + "\n") == head + "\n\n" + TrimEnd(text)
    ensures TrimEnd(text) == [] ==> Trim(head + "\n\n" + text + "\n") == head
  {
    assert IsSpace('\n') by { assert '\n' in SpaceChars; }
    assert TrimEnd("\n") == [];
    assert TrimEnd("\n\n") == [] by {
      assert "\n\n"[..1] == "\n";
    }
    TrimGapped(head, "\n\n", text, "\n");
  }

  /** `TrimBlockThenText` for any gap and any end that are all white space. */
  lemma TrimGapped(head: string, gap: string, text: string, end: string)
    requires head != [] && !IsSpace(head[0]) && !IsSpace(head[|head| - 1])
    requires TrimEnd(gap) == [] && TrimEnd(end) == []
    ensures TrimEnd(text) != [] ==> Trim(head + gap + text + end) == head + gap + TrimEnd(text)
    ensures TrimEnd(text) == [] ==> Trim(head + gap + text + end) == head
  {
    var rest := gap + (text + end);
    Assoc(head, gap, text + end);
    Assoc(head + gap, text, end);
    TrimAfterHead(head, rest);
    TrimEndAppend(text, end);
    TrimEndAppend(gap, text + end);
    Assoc(head, gap, TrimEnd(text));
  }

  lemma Assoc(a: string, b: string, c: string)
    ensures a + (b + c) == a + b + c
  {
  }

  /** A space in front of a trimmed text is trimmed away. */
  lemma TrimAfterSpace(t: string)
    requires Trim(t) == t
    ensures Trim(" " + t) == t
  {
    assert IsSpace(' ') by { assert ' ' in SpaceChars; }
    assert (" " + t)[1..] == t;
    assert TrimStart(" " + t) == TrimStart(t);
  }

  /** A text between two newlines is trimmed back to itself. */
  lemma TrimPadded(s: string)
    requires s != [] && !IsSpace(s[0]) && !IsSpace(s[|s| - 1])
    ensures Trim("\n" + s + "\n") == s
  {
    var x := "\n" + s + "\n";
    assert IsSpace('\n') by { assert '\n' in SpaceChars; }
    assert x[1..] == s + "\n";
    assert TrimStart(s + "\n") == s + "\n" by { assert (s + "\n")[0] == s[0]; }
    assert TrimStart(x) == s + "\n";
    assert (s + "\n")[..|s|] == s;
    assert TrimEnd(s + "\n") == TrimEnd(s);
  }

  /** Trimming introduces no character. */
  lemma TrimIntroducesNothing(s: string, c: char)
    requires c !in s
    ensures c !in Trim(s)
  {
    var t := TrimStart(s);
    assert c !in t;
    var r := TrimEnd(t);
    assert c !in r;
    assert Trim(s) == r;
  }

  /** Drops the run of class characters at the front of `s`. */
  function SkipRun(s: string, inClass: char -> bool): (r: string)
    ensures |r| <= |s| && r == s[|s| - |r|..]
    ensures r == [] || !inClass(r[0])
    ensures s != [] && inClass(s[0]) ==> |r| < |s|
    decreases |s|
  {
    if s != [] && inClass(s[0]) then SkipRun(s[1..], inClass) else s
  }

  /** `s.replace(/[class]+/g, rep)`: every maximal run of characters of the class becomes
      one `rep`. The result never holds two class characters side by side, and its only
      class characters are copies of `rep`. */
  function ReplaceRuns(s: string, inClass: char -> bool, rep: char): (r: string)
    ensures |r| <= |s|
    ensures s != [] ==> r != [] && r[0] == (if inClass(s[0]) then rep else s[0])
    ensures forall i :: 0 <= i < |r| && inClass(r[i]) ==> r[i] == rep
    ensures forall i :: 0 <= i < |r| - 1 ==> !(inClass(r[i]) && inClass(r[i + 1]))
    ensures forall c :: c in r && !inClass(c) && c != rep ==> c in s
    ensures (forall i :: 0 <= i < |s| ==> !inClass(s[i])) ==> r == s
    decreases |s|
  {
    if s == [] then []
    else if inClass(s[0]) then
      var rest := SkipRun(s, inClass);
      var tail := ReplaceRuns(rest, inClass, rep);
      assert forall c :: c in rest ==> c in s;
      [rep] + tail
    else
      var tail := ReplaceRuns(s[1..], inClass, rep);
      assert forall c :: c in s[1..] ==> c in s;
      [s[0]] + tail
  }

  /** The run skipped at the front ends at the latest before a character `c` outside the
      class. */
  lemma {:induction false} SkipRunAround(a: string, c: char, b: string, inClass: char -> bool)
    requires !inClass(c)
    ensures SkipRun(a + [c] + b, inClass) == SkipRun(a, inClass) + [c] + b
    decreases |a|
  {
    if a == [] {
      assert a + [c] + b == [c] + b;
    } else if inClass(a[0]) {
      assert (a + [c] + b)[1..] == a[1..] + [c] + b;
      SkipRunAround(a[1..], c, b, inClass);
    }
  }

  /** A text made only of class characters is skipped whole. */
  lemma {:induction false} SkipRunAll(s: string, inClass: char -> bool)
    requires forall i :: 0 <= i < |s| ==> inClass(s[i])
    ensures SkipRun(s, inClass) == []
    decreases |s|
  {
    if s != [] {
      assert forall i :: 0 <= i < |s[1..]| ==> s[1..][i] == s[i + 1];
      SkipRunAll(s[1..], inClass);
    }
  }

  /** A character outside the class separates what comes before it from what comes
      after: each side is replaced on its own and the character is kept. */
  lemma {:induction false} ReplaceRunsAround(a: string, c: char, b: string, inClass: char -> bool, rep: char)
    requires !inClass(c)
    ensures ReplaceRuns(a + [c] + b, inClass, rep) == ReplaceRuns(a, inClass, rep) + [c] + ReplaceRuns(b, inClass, rep)
    decreases |a|
  {
    if a == [] {
      assert a + [c] + b == [c] + b;
      ReplaceRunsCons(c, b, inClass, rep);
    } else if inClass(a[0]) {
      ReplaceRunsAround(SkipRun(a, inClass), c, b, inClass, rep);
      AroundRunStep(a, c, b, inClass, rep);
    } else {
      ReplaceRunsAround(a[1..], c, b, inClass, rep);
      assert a == [a[0]] + a[1..];
      AroundCharStep(a[0], a[1..], c, b, inClass, rep);
    }
  }

  /** A character outside the class in front is kept, and the rest replaced. */
  lemma ReplaceRunsCons(x: char, t: string, inClass: char -> bool, rep: char)
    requires !inClass(x)
    ensures ReplaceRuns([x] + t, inClass, rep) == [x] + ReplaceRuns(t, inClass, rep)
  {
    assert ([x] + t)[1..] == t;
  }

  /** The step of `ReplaceRunsAround` past a leading run of class characters. */
  lemma AroundRunStep(a: string, c: char, b: string, inClass: char -> bool, rep: char)
    requires !inClass(c) && a != [] && inClass(a[0])
    requires var rest := SkipRun(a, inClass);
      ReplaceRuns(rest + [c] + b, inClass, rep) == ReplaceRuns(rest, inClass, rep) + [c] + ReplaceRuns(b, inClass, rep)
    ensures ReplaceRuns(a + [c] + b, inClass, rep) == ReplaceRuns(a, inClass, rep) + [c] + ReplaceRuns(b, inClass, rep)
  {
    SkipRunAround(a, c, b, inClass);
    assert (a + [c] + b)[0] == a[0];
    ReplaceRunsFront(a + [c] + b, inClass, rep);
    ReplaceRunsFront(a, inClass, rep);
    var u, v := ReplaceRuns(SkipRun(a, inClass), inClass, rep), ReplaceRuns(b, inClass, rep);
    Assoc([rep], u + [c], v);
    Assoc([rep], u, [c]);
  }

  /** The step of `ReplaceRunsAround` past a leading character `x` outside the class. */
  lemma AroundCharStep(x: char, a: string, c: char, b: string, inClass: char -> bool, rep: char)
    requires !inClass(c) && !inClass(x)
    requires ReplaceRuns(a + [c] + b, inClass, rep) == ReplaceRuns(a, inClass, rep) + [c] + ReplaceRuns(b, inClass, rep)
    ensures ReplaceRuns([x] + a + [c] + b, inClass, rep) == ReplaceRuns([x] + a, inClass, rep) + [c] + ReplaceRuns(b, inClass, rep)
  {
    Assoc([x], a + [c], b);
    Assoc([x], a, [c]);
    ReplaceRunsCons(x, a + [c] + b, inClass, rep);
    ReplaceRunsCons(x, a, inClass, rep);
    var u, v := ReplaceRuns(a, inClass, rep), ReplaceRuns(b, inClass, rep);
    Assoc([x], u + [c], v);
    Assoc([x], u, [c]);
  }

  /** One step of `ReplaceRuns` at the front of a non-empty text. */
  lemma ReplaceRunsFront(s: string, inClass: char -> bool, rep: char)
    requires s != []
    ensures ReplaceRuns(s, inClass, rep)
      == if inClass(s[0]) then [rep] + ReplaceRuns(SkipRun(s, inClass), inClass, rep)
         else [s[0]] + ReplaceRuns(s[1..], inClass, rep)
  {
  }

  /** A text that starts with a character outside the class is replaced on its own
      after any text. */
  lemma ReplaceRunsBefore(x: string, c: char, b: string, inClass: char -> bool, rep: char)
    requires !inClass(c)
    ensures ReplaceRuns(x + ([c] + b), inClass, rep) == ReplaceRuns(x, inClass, rep) + ReplaceRuns([c] + b, inClass, rep)
  {
    Assoc(x, [c], b);
    ReplaceRunsAround(x, c, b, inClass, rep);
    ReplaceRunsCons(c, b, inClass, rep);
    Assoc(ReplaceRuns(x, inClass, rep), [c], ReplaceRuns(b, inClass, rep));
  }

  /** A text that ends with a character outside the class is replaced on its own before
      any text. */
  lemma ReplaceRunsAfter(a: string, c: char, y: string, inClass: char -> bool, rep: char)
    requires !inClass(c)
    ensures ReplaceRuns(a + [c] + y, inClass, rep) == ReplaceRuns(a + [c], inClass, rep) + ReplaceRuns(y, inClass, rep)
  {
    ReplaceRunsAround(a, c, y, inClass, rep);
    ReplaceRunsAround(a, c, [], inClass, rep);
    EmptyRight(a + [c]);
    EmptyRight(ReplaceRuns(a, inClass, rep) + [c]);
  }

  lemma EmptyRight(s: string)
    ensures s + [] == s
  {
  }

  /** A non-empty run of class characters becomes a single `rep`. */
  lemma ReplaceRunsRun(t: string, inClass: char -> bool, rep: char)
    requires t != [] && forall i :: 0 <= i < |t| ==> inClass(t[i])
    ensures ReplaceRuns(t, inClass, rep) == [rep]
  {
    SkipRunAll(t, inClass);
  }

  /** A text whose class characters are already single copies of `rep` is left as it is. */
  lemma {:induction false} ReplaceRunsFixed(s: string, inClass: char -> bool, rep: char)
    requires forall i :: 0 <= i < |s| && inClass(s[i]) ==> s[i] == rep
    requires forall i :: 0 <= i < |s| - 1 ==> !(inClass(s[i]) && inClass(s[i + 1]))
    ensures ReplaceRuns(s, inClass, rep) == s
    decreases |s|
  {
    if s != [] {
      var tail := s[1..];
      FixedTail(s, inClass, rep);
      ReplaceRunsFixed(tail, inClass, rep);
      if inClass(s[0]) {
        SkipSingle(s, inClass);
        assert s == [rep] + tail;
      } else {
        assert s == [s[0]] + tail;
      }
    }
  }

  /** The rest of a fixed text is fixed too. */
  lemma FixedTail(s: string, inClass: char -> bool, rep: char)
    requires s != []
    requires forall i :: 0 <= i < |s| && inClass(s[i]) ==> s[i] == rep
    requires forall i :: 0 <= i < |s| - 1 ==> !(inClass(s[i]) && inClass(s[i + 1]))
    ensures forall i :: 0 <= i < |s[1..]| && inClass(s[1..][i]) ==> s[1..][i] == rep
    ensures forall i :: 0 <= i < |s[1..]| - 1 ==> !(inClass(s[1..][i]) && inClass(s[1..][i + 1]))
    ensures s[1..] == [] || !inClass(s[0]) || !inClass(s[1..][0])
  {
    var tail := s[1..];
    assert forall i :: 0 <= i < |tail| ==> tail[i] == s[i + 1];
  }

  /** A run of one class character is skipped alone. */
  lemma SkipSingle(s: string, inClass: char -> bool)
    requires s != [] && inClass(s[0])
    requires s[1..] == [] || !inClass(s[1..][0])
    ensures SkipRun(s, inClass) == s[1..]
  {
  }

  function IndexOf(s: string, c: char): (i: nat)
    requires c in s
    ensures i < |s| && s[i] == c && c !in s[..i]
  {
    if s[0] == c then 0 else 1 + IndexOf(s[1..], c)
  }

  /** `s.split(sep)` for a one-character separator: never empty, and no piece holds `sep`. */
  function Split(s: string, sep: char): (r: seq<string>)
    ensures |r| >= 1
    ensures forall i :: 0 <= i < |r| ==> sep !in r[i]
    decreases |s|
  {
    if sep !in s then [s]
    else
      var i := IndexOf(s, sep);
      [s[..i]] + Split(s[i + 1..], sep)
  }

  /** Splitting at a first separator gives the text before it, then the pieces after it. */
  lemma SplitAfter(x: string, y: string, sep: char)
    requires sep !in x
    ensures Split(x + [sep] + y, sep) == [x] + Split(y, sep)
  {
    var s := x + [sep] + y;
    assert s[|x|] == sep;
    var i := IndexOf(s, sep);
    assert s[..|x|] == x;
    assert s[..i] == x;
    assert s[i + 1..] == y;
  }

  /** `parts.join(sep)` */
  function Join(parts: seq<string>, sep: string): string {
    if parts == [] then ""
    else if |parts| == 1 then parts[0]
    else parts[0] + sep + Join(parts[1..], sep)
  }

  lemma JoinCons(x: string, parts: seq<string>, sep: string)
    requires parts != []
    ensures Join([x] + parts, sep) == x + sep + Join(parts, sep)
  {
    assert ([x] + parts)[1..] == parts;
  }

  /** Splitting on a separator that no piece contains gives back the pieces. */
  lemma {:induction false} SplitJoin(parts: seq<string>, sep: char)
    requires |parts| >= 1
    requires forall i :: 0 <= i < |parts| ==> sep !in parts[i]
    ensures Split(Join(parts, [sep]), sep) == parts
  {
    if |parts| > 1 {
      var s := Join(parts, [sep]);
      var rest := Join(parts[1..], [sep]);
      assert s == parts[0] + [sep] + rest;
      assert sep in s by { assert s[|parts[0]|] == sep; }
      assert s[..|parts[0]|] == parts[0];
      var i := IndexOf(s, sep);
      assert i == |parts[0]|;
      assert s[..i] == parts[0];
      assert s[i + 1..] == rest;
      SplitJoin(parts[1..], sep);
    }
  }

  /** Joining the pieces of a split with the separator gives back the text. */
  lemma {:induction false} JoinSplit(s: string, sep: char)
    ensures Join(Split(s, sep), [sep]) == s
    decreases |s|
  {
    if sep in s {
      var i := IndexOf(s, sep);
      JoinSplit(s[i + 1..], sep);
      var tail := Split(s[i + 1..], sep);
      assert Split(s, sep) == [s[..i]] + tail;
      assert tail != [];
      JoinCons(s[..i], tail, [sep]);
      assert s == s[..i] + [sep] + s[i + 1..];
    }
  }

  /** The join of the pieces contains each piece. */
  lemma {:induction false} JoinContains(parts: seq<string>, sep: string, i: nat)
    requires i < |parts|
    ensures Contains(Join(parts, sep), parts[i])
  {
    if |parts| == 1 {
      ContainsInMiddle("", parts[0], "");
      assert "" + parts[0] + "" == parts[0];
    } else if i == 0 {
      ContainsInMiddle("", parts[0], sep + Join(parts[1..], sep));
      Assoc(parts[0], sep, Join(parts[1..], sep));
      assert "" + parts[0] == parts[0];
    } else {
      assert parts[1..][i - 1] == parts[i];
      JoinContains(parts[1..], sep, i - 1);
      ContainsExtended(Join(parts[1..], sep), parts[i], parts[0] + sep, "");
      EmptyRight(parts[0] + sep + Join(parts[1..], sep));
    }
  }

  /** A character that neither the pieces nor the separator hold is not in the join. */
  lemma {:induction false} JoinAvoids(parts: seq<string>, sep: string, c: char)
    requires c !in sep
    requires forall i :: 0 <= i < |parts| ==> c !in parts[i]
    ensures c !in Join(parts, sep)
  {
    if |parts| > 1 {
      assert forall i :: 0 <= i < |parts[1..]| ==> parts[1..][i] == parts[i + 1];
      JoinAvoids(parts[1..], sep, c);
    }
  }

  /** The length of the run of decimal digits at the end of `s`. */
  function TrailingDigits(s: string): (n: nat)
    ensures n <= |s|
    ensures IsDigits(s[|s| - n..])
  {
    if s != [] && '0' <= s[|s| - 1] <= '9' then TrailingDigits(s[..|s| - 1]) + 1 else 0
  }

  /** After a non-digit, the trailing digit run is exactly the digits that follow it. */
  lemma {:induction false} TrailingDigitsAfter(p: string, c: char, d: string)
    requires !('0' <= c <= '9') && IsDigits(d)
    ensures TrailingDigits(p + [c] + d) == |d|
    decreases |d|
  {
    var s := p + [c] + d;
    if d == [] {
      assert s == p + [c];
    } else {
      assert s[..|s| - 1] == p + [c] + d[..|d| - 1];
      TrailingDigitsAfter(p, c, d[..|d| - 1]);
    }
  }

  /** The length of the run of word characters (`\w`) at the end of `s`. */
  function TrailingWord(s: string): (n: nat)
    ensures n <= |s|
    ensures forall i :: |s| - n <= i < |s| ==> IsWordChar(s[i])
    ensures n < |s| ==> !IsWordChar(s[|s| - n - 1])
  {
    if s != [] && IsWordChar(s[|s| - 1]) then
      var n := TrailingWord(s[..|s| - 1]);
      assert forall i :: 0 <= i < |s| - 1 ==> s[..|s| - 1][i] == s[i];
      n + 1
    else 0
  }

  /** After a character outside the class, the trailing word run is exactly the word
      characters that follow it. */
  lemma {:induction false} TrailingWordAfter(p: string, c: char, w: string)
    requires !IsWordChar(c) && forall i :: 0 <= i < |w| ==> IsWordChar(w[i])
    ensures TrailingWord(p + [c] + w) == |w|
    decreases |w|
  {
    var s := p + [c] + w;
    if w == [] {
      assert s == p + [c];
    } else {
      assert s[..|s| - 1] == p + [c] + w[..|w| - 1];
      TrailingWordAfter(p, c, w[..|w| - 1]);
    }
  }

  /** The number written at the end of `s`, zero when it ends with no digit. */
  function TrailingNumber(s: string): nat {
    DigitsValue(s[|s| - TrailingDigits(s)..])
  }

  /** `${prefix}-${n}`: a name stamped with a number. */
  function Stamped(prefix: string, n: nat): string {
    prefix + "-" + DecimalString(n)
  }

  /** A stamped name starts with its prefix. */
  lemma StampedStartsWith(head: string, rest: string, n: nat)
    ensures StartsWith(Stamped(head + rest, n), head)
  {
    var s := Stamped(head + rest, n);
    assert s == head + (rest + "-" + DecimalString(n));
    assert s[..|head|] == head;
  }

  /** The number a stamped name ends with can be read back from it, and so can the
      name before it. */
  lemma StampedReadBack(prefix: string, n: nat)
    ensures var s := Stamped(prefix, n);
      TrailingNumber(s) == n && s[..|s| - TrailingDigits(s)] == prefix + "-"
  {
    var s := Stamped(prefix, n);
    assert s == prefix + ['-'] + DecimalString(n);
    TrailingDigitsAfter(prefix, '-', DecimalString(n));
    assert s[|s| - |DecimalString(n)|..] == DecimalString(n);
    DecimalRoundTrip(n);
  }

  function DigitChar(d: nat): char
    requires d < 10
  {
    ('0' as int + d) as char
  }

  predicate IsDigits(s: string) {
    forall i :: 0 <= i < |s| ==> '0' <= s[i] <= '9'
  }

  /** The decimal text of a natural number, as JavaScript renders an integral number. */
  function DecimalString(n: nat): (r: string)
    ensures r != [] && IsDigits(r)
  {
    if n < 10 then [DigitChar(n)] else DecimalString(n / 10) + [DigitChar(n % 10)]
  }

  /** The value of a string of decimal digits. */
  function DigitsValue(s: string): nat
    requires IsDigits(s)
  {
    if s == [] then 0 else DigitsValue(s[..|s| - 1]) * 10 + (s[|s| - 1] as int - '0' as int)
  }

  lemma {:induction false} DecimalRoundTrip(n: nat)
    ensures DigitsValue(DecimalString(n)) == n
  {
    if n >= 10 {
      DecimalRoundTrip(n / 10);
      var s := DecimalString(n);
      assert s[..|s| - 1] == DecimalString(n / 10);
    }
  }
}
