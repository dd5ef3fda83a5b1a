/** The version-control adapter: how the tool reads the exit status and
    output of each `git` command it runs, and how it shapes the commit
    message argument. */
module Git {
  import opened Results
  import opened Text

  /** What running one command produced: the binary could not be started,
      or it exited with a status and captured text. */
  datatype Run = Missing | Exited(code: int, out: string, err: string)

  type Argv = seq<string>

  const InsideWorkTree: Argv := ["git", "rev-parse", "--is-inside-work-tree"]
  const StagedNames: Argv := ["git", "diff", "--cached", "--name-only"]
  const StagedDiff: Argv := ["git", "diff", "--cached"]

  /** The four commands the tool runs. */
  datatype Command = RevParse | ListStaged | ReadStaged | Commit(message: string)

  /** The argument vector each command is run with. The commit passes the
      message with its double quotes escaped (see `EscapedCommitArgv`). */
  function ArgvOf(c: Command): Argv {
    match c
    case RevParse => InsideWorkTree
    case ListStaged => StagedNames
    case ReadStaged => StagedDiff
    case Commit(message) => EscapedCommitArgv(message)
  }

  const TruncationMarker: string := "\n[... diff truncated due to size ...]"

  /** The repository check: a successful run that printed `true`, give or
      take surrounding whitespace; a missing binary is not an error. */
  predicate IsGitRepository(run: Run) {
    run.Exited? && run.code == 0 && Strip(run.out) == "true"
  }

  lemma IsGitRepositoryIffPaddedTrue(run: Run)
    ensures IsGitRepository(run) <==> run.Exited? && run.code == 0 && Padded(run.out, "true")
    ensures run.Missing? ==> !IsGitRepository(run)
  {
    if run.Exited? {
      StripIsPadded(run.out, "true");
    }
  }

  /** The staged-changes check: a failing command means "no changes"; a
      missing binary raises. */
  function HasStagedChanges(run: Run): (r: Result<bool>)
    ensures run.Missing? <==> r == Err(FileNotFound)
    ensures run.Exited? && run.code != 0 ==> r == Ok(false)
    ensures run.Exited? && run.code == 0 ==> r.Ok? && (r.value <==> !AllSpace(run.out))
  {
    match run
    case Missing => Err(FileNotFound)
    case Exited(code, out, _) =>
      if code != 0 then Ok(false)
      else
        StripEmptyIffBlank(out);
        Ok(Strip(out) != "")
  }

  /** Cut the diff to `limit` characters and append the marker. A missing
      or zero limit, or a diff that already fits, leaves the diff alone. */
  function Truncate(diff: string, limit: Option<nat>): (r: (string, bool))
    ensures r.1 <==> limit.Some? && limit.value > 0 && |diff| > limit.value
    ensures !r.1 ==> r.0 == diff
    ensures r.1 ==> (|r.0| == limit.value + |TruncationMarker|
      && r.0[..limit.value] == diff[..limit.value]
      && r.0[limit.value..] == TruncationMarker)
  {
    if limit.Some? && limit.value > 0 && |diff| > limit.value then
      (diff[..limit.value] + TruncationMarker, true)
    else (diff, false)
  }

  /** The staged diff, possibly truncated; a failing command raises with
      its error output in the message. */
  function GetStagedDiff(run: Run, limit: Option<nat>): (r: Result<(string, bool)>)
    ensures run.Missing? ==> r == Err(FileNotFound)
    ensures run.Exited? && run.code != 0 ==>
      r == Err(RuntimeError("Failed to get staged diff: " + run.err))
    ensures run.Exited? && run.code == 0 ==> r.Ok? && r.value == Truncate(run.out, limit)
  {
    match run
    case Missing => Err(FileNotFound)
    case Exited(code, out, err) =>
      if code != 0 then Err(RuntimeError("Failed to get staged diff: " + err))
      else Ok(Truncate(out, limit))
  }

  /** The line boundaries of Python's `str.splitlines`. */
  predicate IsLineBreak(c: char) {
    || c == '\n' || c == '\r' || c == '\U{0B}' || c == '\U{0C}'
    || c == '\U{1C}' || c == '\U{1D}' || c == '\U{1E}' || c == '\U{85}'
    || c == '\U{2028}' || c == '\U{2029}'
  }

  predicate NoBreak(s: string) {
    forall i :: 0 <= i < |s| ==> !IsLineBreak(s[i])
  }

  /** The number of leading characters of `s` that are not line breaks. */
  function LineEnd(s: string): (n: nat)
    ensures n <= |s| && NoBreak(s[..n])
    ensures n < |s| ==> IsLineBreak(s[n])
  {
    if s == [] || IsLineBreak(s[0]) then 0
    else
      var n := LineEnd(s[1..]);
      assert s[..n + 1] == [s[0]] + s[1..][..n];
      n + 1
  }

  /** The non-empty lines of `s`, in order. Splitting at each break
      character and dropping empty pieces is the same as
      `[line for line in s.splitlines() if line]`: the pieces a two-character
      `\r\n` break or a final break would add are empty. */
  function NonEmptyLines(s: string): (r: seq<string>)
    ensures forall i :: 0 <= i < |r| ==> r[i] != [] && NoBreak(r[i])
    decreases |s|
  {
    if s == [] then []
    else
      var n := LineEnd(s);
      var rest := if n < |s| then NonEmptyLines(s[n + 1..]) else [];
      if n == 0 then rest else [s[..n]] + rest
  }

  function Concat(lines: seq<string>): string {
    if lines == [] then "" else lines[0] + Concat(lines[1..])
  }

  function DropBreaks(s: string): (r: string)
    ensures NoBreak(r)
  {
    if s == [] then ""
    else (if IsLineBreak(s[0]) then "" else [s[0]]) + DropBreaks(s[1..])
  }

  lemma {:induction false} DropBreaksAppend(a: string, b: string)
    ensures DropBreaks(a + b) == DropBreaks(a) + DropBreaks(b)
    decreases |a|
  {
    if a == [] {
      assert a + b == b;
    } else {
      assert (a + b)[1..] == a[1..] + b;
      DropBreaksAppend(a[1..], b);
    }
  }

  lemma DropBreaksOfNoBreak(s: string)
    requires NoBreak(s)
    ensures DropBreaks(s) == s
  {
  }

  /** Removing the breaks around the first line boundary. */
  lemma DropBreaksAtBoundary(s: string, n: nat)
    requires n < |s| && NoBreak(s[..n]) && IsLineBreak(s[n])
    ensures DropBreaks(s) == s[..n] + DropBreaks(s[n + 1..])
  {
    var line, after := s[..n], s[n + 1..];
    DropBreaksOfNoBreak(line);
    assert DropBreaks([s[n]]) == "";
    assert s == line + [s[n]] + after;
    DropBreaksAppend(line + [s[n]], after);
    DropBreaksAppend(line, [s[n]]);
  }

  /** The first line, then the lines after its boundary. */
  lemma NonEmptyLinesStep(s: string)
    requires s != []
    ensures var n := LineEnd(s);
      Concat(NonEmptyLines(s)) == s[..n] + Concat(if n < |s| then NonEmptyLines(s[n + 1..]) else [])
  {
    var n := LineEnd(s);
    var rest := if n < |s| then NonEmptyLines(s[n + 1..]) else [];
    if n > 0 {
      assert NonEmptyLines(s) == [s[..n]] + rest;
      assert ([s[..n]] + rest)[1..] == rest;
    }
  }

  /** No characters other than line breaks are lost or reordered: the
      lines, read one after another, spell the input without its breaks. */
  lemma {:induction false} NonEmptyLinesKeepText(s: string)
    ensures Concat(NonEmptyLines(s)) == DropBreaks(s)
    decreases |s|
  {
    if s != [] {
      var n := LineEnd(s);
      NonEmptyLinesStep(s);
      if n < |s| {
        NonEmptyLinesKeepText(s[n + 1..]);
        DropBreaksAtBoundary(s, n);
      } else {
        assert s[..n] == s;
        DropBreaksOfNoBreak(s);
      }
    }
  }

  /** A break-free, non-empty line is kept whole, whitespace-only or not. */
  lemma NonEmptyLinesOfLine(line: string)
    requires line != [] && NoBreak(line)
    ensures NonEmptyLines(line) == [line]
  {
    assert line[..|line|] == line;
  }

  /** The first line ends at the first break, wherever that is. */
  lemma {:induction false} LineEndAt(s: string, n: nat)
    requires n <= |s| && NoBreak(s[..n]) && (n == |s| || IsLineBreak(s[n]))
    ensures LineEnd(s) == n
  {
  }

  /** The names of `s` when its first line ends at `n`. */
  lemma {:induction false} NonEmptyLinesAt(s: string, n: nat)
    requires n <= |s| && NoBreak(s[..n]) && (n == |s| || IsLineBreak(s[n]))
    ensures NonEmptyLines(s) ==
      (if n == 0 then [] else [s[..n]]) + (if n < |s| then NonEmptyLines(s[n + 1..]) else [])
  {
    LineEndAt(s, n);
  }

  /** Where the parts of `a + [c] + b` sit around position `m` of `a`. */
  lemma SliceAround<T>(a: seq<T>, c: T, b: seq<T>, m: nat)
    requires m < |a|
    ensures (a + [c] + b)[..m] == a[..m] && (a + [c] + b)[m] == a[m]
    ensures (a + [c] + b)[m + 1..] == a[m + 1..] + [c] + b
  {
  }

  /** Concatenation is associative; stated once so that proofs about
      lists of names need not rediscover it. */
  lemma ConcatAssoc<T>(x: seq<T>, y: seq<T>, z: seq<T>)
    ensures x + (y + z) == (x + y) + z
  {
  }

  /** The split step when `a` has a break of its own, given the split of
      what follows that break. */
  lemma {:induction false} SplitAfterFirstBreak(a: string, c: char, b: string)
    requires IsLineBreak(c) && LineEnd(a) < |a|
    requires var rest := a[LineEnd(a) + 1..];
      NonEmptyLines(rest + [c] + b) == NonEmptyLines(rest) + NonEmptyLines(b)
    ensures NonEmptyLines(a + [c] + b) == NonEmptyLines(a) + NonEmptyLines(b)
  {
    var s := a + [c] + b;
    var m := LineEnd(a);
    var rest := a[m + 1..];
    SliceAround(a, c, b, m);
    NonEmptyLinesAt(a, m);
    NonEmptyLinesAt(s, m);
    var first: seq<string> := if m == 0 then [] else [a[..m]];
    ConcatAssoc(first, NonEmptyLines(rest), NonEmptyLines(b));
  }

  /** The split step when `a` is a single line. */
  lemma {:induction false} SplitAfterLine(a: string, c: char, b: string)
    requires IsLineBreak(c) && LineEnd(a) == |a|
    ensures NonEmptyLines(a + [c] + b) == NonEmptyLines(a) + NonEmptyLines(b)
  {
    var s := a + [c] + b;
    var m := |a|;
    assert s[..m] == a[..m] == a && s[m] == c;
    assert s[m + 1..] == b;
    NonEmptyLinesAt(s, m);
    NonEmptyLinesAt(a, m);
  }

  /** Every line break separates names: the names of `a`, a break, then
      `b` are the names of `a` followed by the names of `b`. With
      `NonEmptyLinesOfLine` this fixes the result for every input. */
  lemma {:induction false} NonEmptyLinesSplit(a: string, c: char, b: string)
    requires IsLineBreak(c)
    ensures NonEmptyLines(a + [c] + b) == NonEmptyLines(a) + NonEmptyLines(b)
    decreases |a|
  {
    if LineEnd(a) < |a| {
      NonEmptyLinesSplit(a[LineEnd(a) + 1..], c, b);
      SplitAfterFirstBreak(a, c, b);
    } else {
      SplitAfterLine(a, c, b);
    }
  }

  /** The staged file names; a failing command raises with its error
      output in the message. */
  function GetStagedFiles(run: Run): (r: Result<seq<string>>)
    ensures run.Missing? ==> r == Err(FileNotFound)
    ensures run.Exited? && run.code != 0 ==>
      r == Err(RuntimeError("Failed to get staged files: " + run.err))
    ensures run.Exited? && run.code == 0 ==> (r.Ok? &&
      (forall i :: 0 <= i < |r.value| ==> r.value[i] != [] && NoBreak(r.value[i])) &&
      Concat(r.value) == DropBreaks(run.out))
    ensures run.Exited? && run.code == 0 ==> r == Ok(NonEmptyLines(run.out))
  {
    match run
    case Missing => Err(FileNotFound)
    case Exited(code, out, err) =>
      if code != 0 then Err(RuntimeError("Failed to get staged files: " + err))
      else
        NonEmptyLinesKeepText(out);
        Ok(NonEmptyLines(out))
  }

  function Count(s: string, c: char): nat {
    if s == [] then 0 else (if s[0] == c then 1 else 0) + Count(s[1..], c)
  }

  /** `message.replace('"', '\\"')`: a backslash goes in front of every
      double quote, the quoting a shell command line would need. */
  function EscapeQuotes(message: string): (r: string)
    ensures |r| == |message| + Count(message, '"')
  {
    if message == [] then ""
    else (if message[0] == '"' then "\\\"" else [message[0]]) + EscapeQuotes(message[1..])
  }

  /** Drop the backslash in front of each double quote. */
  function UnescapeQuotes(s: string): string
    decreases |s|
  {
    if s == [] then ""
    else if |s| >= 2 && s[0] == '\\' && s[1] == '"' then "\"" + UnescapeQuotes(s[2..])
    else [s[0]] + UnescapeQuotes(s[1..])
  }

  /** Escaping loses nothing: removing the inserted backslashes gives the
      message back. */
  lemma {:induction false} UnescapeEscape(message: string)
    ensures UnescapeQuotes(EscapeQuotes(message)) == message
    decreases |message|
  {
    if message != [] {
      var tail := EscapeQuotes(message[1..]);
      UnescapeEscape(message[1..]);
      if message[0] == '"' {
        assert EscapeQuotes(message) == "\\\"" + tail;
        assert (("\\\"" + tail)[2..]) == tail;
      } else {
        assert EscapeQuotes(message) == [message[0]] + tail;
        assert ([message[0]] + tail)[1..] == tail;
      }
    }
  }

  /** Every double quote in `s` has a backslash right before it. */
  predicate QuotesEscaped(s: string) {
    forall i :: 0 <= i < |s| && s[i] == '"' ==> i > 0 && s[i - 1] == '\\'
  }

  /** Every double quote of the escaped text has a backslash right before
      it. */
  lemma {:induction false} EscapedQuotesArePrefixed(message: string)
    ensures QuotesEscaped(EscapeQuotes(message))
    decreases |message|
  {
    if message != [] {
      var tail := EscapeQuotes(message[1..]);
      EscapedQuotesArePrefixed(message[1..]);
      var head: string := if message[0] == '"' then "\\\"" else [message[0]];
      var r := head + tail;
      assert EscapeQuotes(message) == r;
      forall i | 0 <= i < |r| && r[i] == '"'
        ensures i > 0 && r[i - 1] == '\\'
      {
        if i < |head| {
          assert r[i] == head[i];
          assert i == 1 && r[0] == head[0];
        } else {
          assert r[i] == tail[i - |head|];
          if i - |head| > 0 {
            assert r[i - 1] == tail[i - |head| - 1];
          }
        }
      }
    }
  }

  /** The message git records for `git commit -m <text>`: the argument is
      passed as one list element with no shell in between, so git stores
      it character for character, up to its default whitespace cleanup
      (trailing spaces and repeated blank lines). */
  function RecordedMessage(argv: Argv): string
    requires |argv| == 4
  {
    argv[3]
  }

  /** The commit command as the program builds it: the message with its
      double quotes escaped. */
  function EscapedCommitArgv(message: string): (argv: Argv)
    ensures |argv| == 4 && argv[..3] == ["git", "commit", "-m"]
    ensures UnescapeQuotes(RecordedMessage(argv)) == message
  {
    UnescapeEscape(message);
    ["git", "commit", "-m", EscapeQuotes(message)]
  }

  /** With no shell to remove them, the escaping backslashes end up in the
      recorded message: any message with a double quote is recorded
      differently from how it was shown. */
  lemma EscapedCommitAltersQuotes(message: string)
    requires Count(message, '"') > 0
    ensures RecordedMessage(ArgvOf(Commit(message))) != message
    ensures |RecordedMessage(ArgvOf(Commit(message)))| == |message| + Count(message, '"')
  {
  }

  /** For instance, committing `"x"` records `\"x\"`. */
  lemma EscapedCommitExample()
    ensures RecordedMessage(ArgvOf(Commit("\"x\""))) == "\\\"x\\\""
  {
    var m := "\"x\"";
    assert EscapeQuotes(m[2..]) == "\\\"";
    assert EscapeQuotes(m[1..]) == "x\\\"";
  }

  /** The corrected commit command: the message is passed through
      unchanged, so that git records the message that was shown, up to its
      whitespace cleanup. */
  function CommitArgv(message: string): (argv: Argv)
    ensures |argv| == 4 && argv[..3] == ["git", "commit", "-m"]
    ensures RecordedMessage(argv) == message
    ensures Count(message, '"') > 0 ==> argv != ArgvOf(Commit(message))
  {
    ["git", "commit", "-m", message]
  }

  /** The commit outcome: success is `true`, a failing command is reported
      as `false` rather than raised; a missing binary raises. */
  function CommitChanges(run: Run): (r: Result<bool>)
    ensures run.Missing? <==> r.Err?
    ensures r.Ok? ==> (r.value <==> run.code == 0)
  {
    match run
    case Missing => Err(FileNotFound)
    case Exited(code, _, _) => Ok(code == 0)
  }
}
