/** The `generate` command: check the repository, read the staged diff
    once, generate a message, then let the user accept, regenerate or
    abort. The terminal, the `git` binary and the generator are
    parameters, so a run is a pure function from their answers to the
    trace of what the command did. */
module Cli {
  import opened Results
  import opened Text
  import opened Git

  /** What the user typed, after lower-casing. */
  datatype Choice = Accept | Regenerate | Abort | Invalid

  /** The action a lower-cased answer selects. */
  function Action(word: string): Choice {
    if word == "y" || word == "yes" then Accept
    else if word == "r" || word == "regenerate" then Regenerate
    else if word == "n" || word == "no" then Abort
    else Invalid
  }

  /** The prompt's reading of one answer: an empty answer takes the
      default "y", anything else is lower-cased first. */
  function Classify(input: string): Choice {
    if input == "" then Accept else Action(Lower(input))
  }

  /** Answers are read case-insensitively: lower-casing an answer first
      does not change the action it selects. */
  lemma ClassifyIgnoresCase(input: string)
    ensures Classify(Lower(input)) == Classify(input)
  {
    LowerIdempotent(input);
    assert |Lower(input)| == |input|;
  }

  /** The observable steps of a run. */
  datatype Event =
    /** A `git` command was run, with the argument vector `ArgvOf(command)`. */
    | Exec(command: Command)
    /** The generator was asked for a message for `diff`. */
    | Generate(diff: string)
    /** The user was told the diff had been truncated. */
    | TruncationWarning

  /** How a run ends: an exit status, an exception nobody catches (the
      interpreter then exits with status 1), or waiting for another
      answer at the prompt. */
  datatype Outcome = Exit(code: int) | Crash(error: Error) | AwaitingChoice

  datatype Trace = Trace(events: seq<Event>, outcome: Outcome)

  /** The answers typed at the prompt, classified one by one. */
  function Answers(inputs: seq<string>): (r: seq<Choice>)
    ensures |r| == |inputs| && forall i :: 0 <= i < |r| ==> r[i] == Classify(inputs[i])
  {
    seq(|inputs|, i requires 0 <= i < |inputs| => Classify(inputs[i]))
  }

  /** The generator's answers, by diff and by call number (0 first). */
  type Oracle = (string, nat) -> Result<string>

  /** The shell's answers: what running each command produced. */
  type Shell = Command -> Run

  predicate IsCommit(e: Event) {
    e.Exec? && e.command.Commit?
  }

  function Commits(events: seq<Event>): nat {
    if events == [] then 0 else (if IsCommit(events[0]) then 1 else 0) + Commits(events[1..])
  }

  function Generations(events: seq<Event>): nat {
    if events == [] then 0 else (if events[0].Generate? then 1 else 0) + Generations(events[1..])
  }

  function Occurrences(events: seq<Event>, e: Event): nat {
    if events == [] then 0 else (if events[0] == e then 1 else 0) + Occurrences(events[1..], e)
  }

  lemma {:induction false} CountsAppend(a: seq<Event>, b: seq<Event>)
    ensures Commits(a + b) == Commits(a) + Commits(b)
    ensures Generations(a + b) == Generations(a) + Generations(b)
    ensures forall e :: Occurrences(a + b, e) == Occurrences(a, e) + Occurrences(b, e)
    decreases |a|
  {
    if a == [] {
      assert a + b == b;
    } else {
      assert (a + b)[1..] == a[1..] + b;
      CountsAppend(a[1..], b);
    }
  }

  function Prepend(events: seq<Event>, t: Trace): Trace {
    Trace(events + t.events, t.outcome)
  }

  /** The message the review loop is showing after `n` regenerations. */
  function Shown(message: string, diff: string, calls: nat, gen: Oracle, n: nat): Result<string> {
    if n == 0 then Ok(message) else gen(diff, calls + n - 1)
  }

  /** The generator's answer to call `i` about `diff` is a message. */
  predicate Succeeds(gen: Oracle, diff: string, i: nat) {
    gen(diff, i).Ok?
  }

  /** The review loop, from the prompt showing `message` with `calls`
      generator calls made so far. */
  function Review(diff: string, message: string, answers: seq<Choice>, calls: nat,
                  git: Shell, gen: Oracle): Trace
    decreases |answers|
  {
    if answers == [] then Trace([], AwaitingChoice)
    else
      var choice := answers[0];
      if choice == Accept then
        var committed := CommitChanges(git(Commit(message)));
        Trace([Exec(Commit(message))], if committed.Ok? then Exit(0) else Crash(committed.error))
      else if choice == Regenerate then
        var next := gen(diff, calls);
        if next.Err? then Trace([Generate(diff)], Exit(1))
        else Prepend([Generate(diff)], Review(diff, next.value, answers[1..], calls + 1, git, gen))
      else if choice == Abort then Trace([], Exit(0))
      else Review(diff, message, answers[1..], calls, git, gen)
  }

  /** Every command among `events` is a commit. */
  predicate OnlyCommits(events: seq<Event>) {
    forall i :: 0 <= i < |events| && events[i].Exec? ==> IsCommit(events[i])
  }

  /** Every generator call among `events` is about `diff`. */
  predicate AllAbout(events: seq<Event>, diff: string) {
    forall i :: 0 <= i < |events| && events[i].Generate? ==> events[i].diff == diff
  }

  lemma PrependGenerate(diff: string, events: seq<Event>)
    requires OnlyCommits(events) && AllAbout(events, diff)
    ensures OnlyCommits([Generate(diff)] + events) && AllAbout([Generate(diff)] + events, diff)
  {
    var e := [Generate(diff)] + events;
    forall i | 1 <= i < |e|
      ensures e[i] == events[i - 1]
    {
    }
  }

  /** The loop runs no `git` command but the commit and asks the
      generator only about the diff it was given. */
  lemma {:induction false} ReviewStaysOnDiff(diff: string, message: string, answers: seq<Choice>,
                                             calls: nat, git: Shell, gen: Oracle)
    ensures var t := Review(diff, message, answers, calls, git, gen);
      OnlyCommits(t.events) && AllAbout(t.events, diff)
    decreases |answers|
  {
    if answers != [] {
      var c := answers[0];
      if c == Regenerate && gen(diff, calls).Ok? {
        var next := gen(diff, calls).value;
        ReviewStaysOnDiff(diff, next, answers[1..], calls + 1, git, gen);
        PrependGenerate(diff, Review(diff, next, answers[1..], calls + 1, git, gen).events);
      } else if c == Invalid {
        ReviewStaysOnDiff(diff, message, answers[1..], calls, git, gen);
      }
    }
  }

  /** The loop commits at most once, as its last step, and runs the commit
      for the message on display: the one it started with or the latest
      regenerated one (`ArgvOf` passes it with its quotes escaped). */
  lemma {:induction false} ReviewCommitsShown(diff: string, message: string, answers: seq<Choice>,
                                              calls: nat, git: Shell, gen: Oracle)
    ensures var t := Review(diff, message, answers, calls, git, gen);
      && Commits(t.events) <= 1
      && (Commits(t.events) == 1 ==>
            var n := Generations(t.events);
            Shown(message, diff, calls, gen, n).Ok?
            && t.events[|t.events| - 1] == Exec(Commit(Shown(message, diff, calls, gen, n).value)))
    decreases |answers|
  {
    if answers != [] {
      var c := answers[0];
      if c == Regenerate && gen(diff, calls).Ok? {
        var next := gen(diff, calls).value;
        var rest := Review(diff, next, answers[1..], calls + 1, git, gen);
        ReviewCommitsShown(diff, next, answers[1..], calls + 1, git, gen);
        CountsAppend([Generate(diff)], rest.events);
        if Commits(rest.events) == 1 {
          var n := Generations(rest.events);
          assert Shown(message, diff, calls, gen, n + 1) == Shown(next, diff, calls + 1, gen, n);
        }
      } else if c == Invalid {
        ReviewCommitsShown(diff, message, answers[1..], calls, git, gen);
      }
    }
  }

  /** The loop exits with status 1 only when a regeneration failed: the
      last generator call failed and nothing was committed. */
  lemma {:induction false} ReviewFailsOnGenerator(diff: string, message: string, answers: seq<Choice>,
                                                  calls: nat, git: Shell, gen: Oracle)
    ensures var t := Review(diff, message, answers, calls, git, gen);
      t.outcome == Exit(1) ==>
        Commits(t.events) == 0 && Generations(t.events) > 0
        && !Succeeds(gen, diff, calls + Generations(t.events) - 1)
    decreases |answers|
  {
    if answers != [] {
      var c := answers[0];
      if c == Regenerate && gen(diff, calls).Ok? {
        var next := gen(diff, calls).value;
        var rest := Review(diff, next, answers[1..], calls + 1, git, gen);
        ReviewFailsOnGenerator(diff, next, answers[1..], calls + 1, git, gen);
        CountsAppend([Generate(diff)], rest.events);
      } else if c == Invalid {
        ReviewFailsOnGenerator(diff, message, answers[1..], calls, git, gen);
      }
    }
  }

  /** Nothing is committed without a yes: a trace of the loop that holds a
      commit read an Accept answer. */
  lemma {:induction false} CommitOnlyAfterYes(diff: string, message: string, answers: seq<Choice>,
                                              calls: nat, git: Shell, gen: Oracle)
    ensures Commits(Review(diff, message, answers, calls, git, gen).events) > 0 ==> Accept in answers
    decreases |answers|
  {
    if answers != [] && answers[0] != Accept {
      var c := answers[0];
      var t := Review(diff, message, answers, calls, git, gen);
      if c == Regenerate && gen(diff, calls).Ok? {
        var next := gen(diff, calls).value;
        var rest := Review(diff, next, answers[1..], calls + 1, git, gen);
        CommitOnlyAfterYes(diff, next, answers[1..], calls + 1, git, gen);
        assert t.events == [Generate(diff)] + rest.events;
        CountsAppend([Generate(diff)], rest.events);
      } else if c == Invalid {
        CommitOnlyAfterYes(diff, message, answers[1..], calls, git, gen);
      } else if c == Regenerate {
        assert t.events == [Generate(diff)];
        assert Commits(t.events) == 0;
      } else {
        assert t.events == [];
      }
      if Accept in answers[1..] {
        var i :| 0 <= i < |answers[1..]| && answers[1..][i] == Accept;
        assert answers[i + 1] == Accept;
      }
    }
  }

  /** `k` successful regenerations and then one that fails: status 1,
      `k + 1` generator calls, and no commit. */
  lemma {:induction false} RegenerateThenFail(diff: string, message: string, answers: seq<Choice>, k: nat,
                                              calls: nat, git: Shell, gen: Oracle)
    requires k < |answers|
    requires forall i :: 0 <= i <= k ==> answers[i] == Regenerate
    requires forall j :: calls <= j < calls + k ==> Succeeds(gen, diff, j)
    requires !Succeeds(gen, diff, calls + k)
    ensures var t := Review(diff, message, answers, calls, git, gen);
      t.outcome == Exit(1) && Commits(t.events) == 0 && Generations(t.events) == k + 1
    decreases k
  {
    if k > 0 {
      assert Succeeds(gen, diff, calls);
      var next := gen(diff, calls).value;
      forall i | 0 <= i <= k - 1
        ensures answers[1..][i] == Regenerate
      {
        assert answers[1..][i] == answers[i + 1];
      }
      var rest := Review(diff, next, answers[1..], calls + 1, git, gen);
      RegenerateThenFail(diff, next, answers[1..], k - 1, calls + 1, git, gen);
      CountsAppend([Generate(diff)], rest.events);
    }
  }

  /** An answer outside the closed set changes nothing: the loop asks
      again with the same message. */
  lemma InvalidChoiceIsIgnored(diff: string, message: string, input: string, choices: seq<string>,
                               calls: nat, git: Shell, gen: Oracle)
    requires Classify(input) == Invalid
    ensures Review(diff, message, Answers([input] + choices), calls, git, gen)
         == Review(diff, message, Answers(choices), calls, git, gen)
  {
    assert Answers([input] + choices)[1..] == Answers(choices);
  }

  /** `k` generator calls followed by one commit. */
  lemma {:induction false} GenerationsThenCommit(diff: string, message: string, k: nat)
    ensures var events := seq(k, _ => Generate(diff)) + [Exec(Commit(message))];
      Generations(events) == k && Commits(events) == 1
    decreases k
  {
    var events := seq(k, _ => Generate(diff)) + [Exec(Commit(message))];
    if k == 0 {
      assert events == [Exec(Commit(message))];
    } else {
      GenerationsThenCommit(diff, message, k - 1);
      assert events[1..] == seq(k - 1, _ => Generate(diff)) + [Exec(Commit(message))];
    }
  }

  /** `k` regenerations that all succeed, then yes: `k` generator calls,
      then one commit, of the last message generated. */
  lemma {:induction false} RegenerateThenAccept(diff: string, message: string, answers: seq<Choice>, k: nat,
                                                calls: nat, git: Shell, gen: Oracle)
    requires k < |answers|
    requires forall i :: 0 <= i < k ==> answers[i] == Regenerate
    requires answers[k] == Accept
    requires forall j :: calls <= j < calls + k ==> Succeeds(gen, diff, j)
    ensures var t := Review(diff, message, answers, calls, git, gen);
      && Shown(message, diff, calls, gen, k).Ok?
      && t.events == seq(k, _ => Generate(diff)) + [Exec(Commit(Shown(message, diff, calls, gen, k).value))]
      && (git(Commit(Shown(message, diff, calls, gen, k).value)).Exited? ==> t.outcome == Exit(0))
    decreases k
  {
    if k == 0 {
      assert seq(0, _ => Generate(diff)) + [Exec(Commit(message))] == [Exec(Commit(message))];
    } else {
      assert Succeeds(gen, diff, calls);
      var next := gen(diff, calls).value;
      forall i | 0 <= i < k - 1
        ensures answers[1..][i] == Regenerate
      {
        assert answers[1..][i] == answers[i + 1];
      }
      RegenerateThenAccept(diff, next, answers[1..], k - 1, calls + 1, git, gen);
      assert Shown(message, diff, calls, gen, k) == Shown(next, diff, calls + 1, gen, k - 1);
      assert [Generate(diff)] + seq(k - 1, _ => Generate(diff)) == seq(k, _ => Generate(diff));
    }
  }

  /** Aborting, after any number of invalid answers, ends the run with
      status 0 and no commit. */
  lemma {:induction false} AbortCommitsNothing(diff: string, message: string, answers: seq<Choice>, k: nat,
                                               calls: nat, git: Shell, gen: Oracle)
    requires k < |answers|
    requires forall i :: 0 <= i < k ==> answers[i] == Invalid
    requires answers[k] == Abort
    ensures Review(diff, message, answers, calls, git, gen) == Trace([], Exit(0))
    decreases k
  {
    if k > 0 {
      forall i | 0 <= i < k - 1
        ensures answers[1..][i] == Invalid
      {
        assert answers[1..][i] == answers[i + 1];
      }
      AbortCommitsNothing(diff, message, answers[1..], k - 1, calls, git, gen);
    }
  }

  /** The commands run before the diff is read, when all checks pass. */
  const Checks: seq<Event> := [Exec(RevParse), Exec(ListStaged), Exec(ListStaged)]

  /** What the four read-only `git` steps report. The controller consults
      each one only when it gets that far, and the trace records a command
      only when it is consulted. */
  datatype Probe = Probe(inRepo: bool, staged: Result<bool>, files: Result<seq<string>>,
                         diff: Result<(string, bool)>)

  function Probes(git: Shell, limit: Option<nat>): Probe {
    Probe(IsGitRepository(git(RevParse)), HasStagedChanges(git(ListStaged)),
          GetStagedFiles(git(ListStaged)), GetStagedDiff(git(ReadStaged), limit))
  }

  /** The controller: the repository check, the staged check, the file
      listing, the one diff read, the first generation, then the review
      loop. */
  function Flow(p: Probe, git: Shell, gen: Oracle, choices: seq<string>): Trace {
    if !p.inRepo then Trace([Exec(RevParse)], Exit(1))
    else if p.staged.Err? then Trace([Exec(RevParse), Exec(ListStaged)], Crash(p.staged.error))
    else if !p.staged.value then Trace([Exec(RevParse), Exec(ListStaged)], Exit(0))
    else if p.files.Err? then Trace(Checks, Crash(p.files.error))
    else Prepend(Checks, ReadAndGenerate(p.diff, git, gen, choices))
  }

  /** The whole `generate` command. */
  function RunGenerate(git: Shell, limit: Option<nat>, gen: Oracle, choices: seq<string>): Trace {
    Flow(Probes(git, limit), git, gen, choices)
  }

  /** What the diff read shows: the command, the warning when the diff
      was cut, and the first generator call. */
  function Opening(diff: string, truncated: bool): seq<Event> {
    [Exec(ReadStaged)] + (if truncated then [TruncationWarning] else []) + [Generate(diff)]
  }

  /** The diff read, the first generation, then the review loop. */
  function ReadAndGenerate(got: Result<(string, bool)>, git: Shell, gen: Oracle, choices: seq<string>): Trace {
    if got.Err? then Trace([Exec(ReadStaged)], Exit(1))
    else
      var diff := got.value.0;
      var first := gen(diff, 0);
      if first.Err? then Trace(Opening(diff, got.value.1), Exit(1))
      else Prepend(Opening(diff, got.value.1), Review(diff, first.value, Answers(choices), 1, git, gen))
  }

  lemma ChecksCounts()
    ensures Commits(Checks) == 0 && Generations(Checks) == 0
    ensures Occurrences(Checks, Exec(ReadStaged)) == 0
  {
    assert Checks[1..] == [Exec(ListStaged), Exec(ListStaged)];
    assert Checks[1..][1..] == [Exec(ListStaged)];
  }

  /** The opening reads the diff once, asks the generator once, about
      that diff, and runs nothing else. */
  lemma OpeningFacts(diff: string, truncated: bool)
    ensures var o := Opening(diff, truncated);
      && o[0] == Exec(ReadStaged) && o[|o| - 1] == Generate(diff)
      && Commits(o) == 0 && Generations(o) == 1 && Occurrences(o, Exec(ReadStaged)) == 1
      && (forall i :: 1 <= i < |o| ==> !o[i].Exec? && (o[i].Generate? ==> o[i].diff == diff))
  {
    var o := Opening(diff, truncated);
    if truncated {
      assert o == [Exec(ReadStaged), TruncationWarning, Generate(diff)];
      var tail := o[1..];
      assert tail == [TruncationWarning, Generate(diff)];
      assert tail[1..] == [Generate(diff)];
      assert Commits(tail[1..]) == 0 && Generations(tail[1..]) == 1;
      assert Occurrences(tail[1..], Exec(ReadStaged)) == 0;
      assert Commits(tail) == 0 && Generations(tail) == 1;
      assert Occurrences(tail, Exec(ReadStaged)) == 0;
    } else {
      assert o == [Exec(ReadStaged), Generate(diff)];
      var tail := o[1..];
      assert tail == [Generate(diff)];
      assert Commits(tail) == 0 && Generations(tail) == 1;
      assert Occurrences(tail, Exec(ReadStaged)) == 0;
    }
  }

  /** Outside a repository the run stops with status 1 after the first
      check, before any other command, generation or commit. */
  lemma NotARepository(git: Shell, limit: Option<nat>, gen: Oracle, choices: seq<string>)
    requires !IsGitRepository(git(RevParse))
    ensures RunGenerate(git, limit, gen, choices) == Trace([Exec(RevParse)], Exit(1))
  {
  }

  /** Nothing staged: status 0 after the two checks, so no generation and
      no commit. */
  lemma NothingStaged(git: Shell, limit: Option<nat>, gen: Oracle, choices: seq<string>)
    requires IsGitRepository(git(RevParse))
    requires git(ListStaged).Exited? && AllSpace(git(ListStaged).out)
    ensures RunGenerate(git, limit, gen, choices) == Trace([Exec(RevParse), Exec(ListStaged)], Exit(0))
  {
    assert HasStagedChanges(git(ListStaged)) == Ok(false);
  }

  /** The checks passed and the file listing succeeded. */
  predicate ReachesDiff(p: Probe) {
    p.inRepo && p.staged == Ok(true) && p.files.Ok?
  }

  /** A shell that passes the checks gives a probe that does, and the run
      then reads the diff. */
  lemma ShellReachesDiff(git: Shell, limit: Option<nat>)
    requires IsGitRepository(git(RevParse))
    requires git(ListStaged).Exited? && git(ListStaged).code == 0 && !AllSpace(git(ListStaged).out)
    ensures ReachesDiff(Probes(git, limit))
  {
  }

  /** A failing diff read ends the run with status 1 before any
      generation. */
  lemma DiffReadFailure(p: Probe, git: Shell, gen: Oracle, choices: seq<string>)
    requires ReachesDiff(p) && p.diff.Err?
    ensures var t := Flow(p, git, gen, choices);
      t == Trace(Checks + [Exec(ReadStaged)], Exit(1))
      && Generations(t.events) == 0 && Commits(t.events) == 0
  {
    ChecksCounts();
    CountsAppend(Checks, [Exec(ReadStaged)]);
  }

  /** A failing first generation ends the run with status 1, no commit. */
  lemma FirstGenerationFailure(p: Probe, git: Shell, gen: Oracle, choices: seq<string>)
    requires ReachesDiff(p) && p.diff.Ok?
    requires !Succeeds(gen, p.diff.value.0, 0)
    ensures var t := Flow(p, git, gen, choices);
      t.outcome == Exit(1) && Commits(t.events) == 0 && Generations(t.events) == 1
  {
    var o := Opening(p.diff.value.0, p.diff.value.1);
    assert Flow(p, git, gen, choices) == Trace(Checks + o, Exit(1));
    ChecksCounts();
    OpeningFacts(p.diff.value.0, p.diff.value.1);
    CountsAppend(Checks, o);
  }

  /** The opening followed by the review loop's events. */
  lemma OpeningThenReview(diff: string, truncated: bool, r: seq<Event>)
    requires OnlyCommits(r) && AllAbout(r, diff) && Commits(r) <= 1
    ensures var e := Opening(diff, truncated) + r;
      && e[0] == Exec(ReadStaged) && Commits(e) <= 1
      && Occurrences(e, Exec(ReadStaged)) == 1
      && OnlyCommits(e[1..]) && AllAbout(e, diff)
  {
    var o := Opening(diff, truncated);
    var e := o + r;
    OpeningFacts(diff, truncated);
    NoDiffReadAmongCommits(r);
    CountsAppend(o, r);
    forall i | 1 <= i < |e|
      ensures (e[i].Exec? ==> IsCommit(e[i])) && (e[i].Generate? ==> e[i].diff == diff)
    {
      if i >= |o| {
        assert e[i] == r[i - |o|];
      } else {
        assert e[i] == o[i];
      }
    }
    assert forall i :: 0 <= i < |e[1..]| ==> e[1..][i] == e[i + 1];
  }

  /** After the diff read: no second read, every generator call is about
      the diff that was read, and every command is the commit. */
  lemma ReadAndGenerateShape(got: Result<(string, bool)>, git: Shell, gen: Oracle, choices: seq<string>)
    ensures var t := ReadAndGenerate(got, git, gen, choices);
      && |t.events| >= 1 && t.events[0] == Exec(ReadStaged)
      && Commits(t.events) <= 1
      && Occurrences(t.events, Exec(ReadStaged)) == 1
      && OnlyCommits(t.events[1..])
      && (got.Err? ==> Generations(t.events) == 0)
      && (got.Ok? ==> AllAbout(t.events, got.value.0))
  {
    var t := ReadAndGenerate(got, git, gen, choices);
    if got.Ok? {
      var diff := got.value.0;
      var o := Opening(diff, got.value.1);
      if gen(diff, 0).Ok? {
        var r := Review(diff, gen(diff, 0).value, Answers(choices), 1, git, gen);
        assert t.events == o + r.events;
        ReviewStaysOnDiff(diff, gen(diff, 0).value, Answers(choices), 1, git, gen);
        ReviewCommitsShown(diff, gen(diff, 0).value, Answers(choices), 1, git, gen);
        OpeningThenReview(diff, got.value.1, r.events);
      } else {
        assert t.events == o + [];
        OpeningThenReview(diff, got.value.1, []);
      }
    } else {
      assert t.events == [Exec(ReadStaged)];
    }
  }

  lemma {:induction false} NoDiffReadAmongCommits(events: seq<Event>)
    requires forall i :: 0 <= i < |events| && events[i].Exec? ==> IsCommit(events[i])
    ensures Occurrences(events, Exec(ReadStaged)) == 0
    decreases |events|
  {
    if events != [] {
      assert events[0] != Exec(ReadStaged) by {
        if events[0].Exec? {
          assert IsCommit(events[0]);
        }
      }
      NoDiffReadAmongCommits(events[1..]);
    }
  }

  /** A run that stops at the checks runs only check commands. */
  lemma StopsAtChecks(p: Probe, git: Shell, gen: Oracle, choices: seq<string>)
    requires !ReachesDiff(p)
    ensures var t := Flow(p, git, gen, choices);
      Commits(t.events) == 0 && Generations(t.events) == 0 && Occurrences(t.events, Exec(ReadStaged)) == 0
  {
    var t := Flow(p, git, gen, choices);
    if p.inRepo && p.staged.Ok? && p.staged.value {
      assert t.events == Checks;
      ChecksCounts();
    } else if p.inRepo {
      assert t.events == [Exec(RevParse), Exec(ListStaged)];
      assert t.events[1..] == [Exec(ListStaged)];
    }
  }

  /** In every run the diff is read at most once, and only after the
      repository and staged checks and the file listing; every generator
      call is about that diff and comes after the read; at most one
      commit happens. */
  lemma RunShape(p: Probe, git: Shell, gen: Oracle, choices: seq<string>)
    ensures var t := Flow(p, git, gen, choices);
      && Occurrences(t.events, Exec(ReadStaged)) <= 1
      && Commits(t.events) <= 1
      && (Generations(t.events) > 0 ==>
            ReachesDiff(p) && p.diff.Ok?
            && |t.events| > |Checks| && t.events[..|Checks| + 1] == Checks + [Exec(ReadStaged)]
            && (forall i :: 0 <= i < |t.events| && t.events[i].Generate? ==>
                  i > |Checks| && t.events[i].diff == p.diff.value.0))
  {
    var t := Flow(p, git, gen, choices);
    if ReachesDiff(p) {
      var r := ReadAndGenerate(p.diff, git, gen, choices);
      assert t.events == Checks + r.events;
      ReadAndGenerateShape(p.diff, git, gen, choices);
      ChecksCounts();
      CountsAppend(Checks, r.events);
      if Generations(t.events) > 0 {
        assert Generations(r.events) > 0;
        forall i | 0 <= i < |t.events| && t.events[i].Generate?
          ensures i > |Checks| && t.events[i].diff == p.diff.value.0
        {
          if i >= |Checks| {
            assert t.events[i] == r.events[i - |Checks|];
          }
        }
      }
      assert t.events[..|Checks| + 1] == Checks + [r.events[0]];
    } else {
      StopsAtChecks(p, git, gen, choices);
    }
  }

  /** A run commits only after the user answered yes (or pressed enter,
      which takes the default "y"). */
  lemma CommitNeedsYes(p: Probe, git: Shell, gen: Oracle, choices: seq<string>)
    ensures Commits(Flow(p, git, gen, choices).events) > 0 ==>
      exists i :: 0 <= i < |choices| && Classify(choices[i]) == Accept
  {
    var t := Flow(p, git, gen, choices);
    if !ReachesDiff(p) {
      StopsAtChecks(p, git, gen, choices);
    } else if p.diff.Err? {
      DiffReadFailure(p, git, gen, choices);
    } else {
      var diff := p.diff.value.0;
      var o := Opening(diff, p.diff.value.1);
      ChecksCounts();
      OpeningFacts(diff, p.diff.value.1);
      if gen(diff, 0).Ok? {
        var answers := Answers(choices);
        var r := Review(diff, gen(diff, 0).value, answers, 1, git, gen);
        assert t.events == Checks + (o + r.events);
        CountsAppend(o, r.events);
        CountsAppend(Checks, o + r.events);
        CommitOnlyAfterYes(diff, gen(diff, 0).value, answers, 1, git, gen);
        if Accept in answers {
          var i :| 0 <= i < |answers| && answers[i] == Accept;
          assert Classify(choices[i]) == Accept;
        }
      } else {
        assert t.events == Checks + o;
        CountsAppend(Checks, o);
      }
    }
  }

  /** `k` regenerations then yes, with every generation succeeding:
      `k + 1` generator calls and one commit, of the `(k + 1)`-th
      message. */
  lemma RegenerateKThenAccept(p: Probe, git: Shell, gen: Oracle, choices: seq<string>, k: nat)
    requires ReachesDiff(p) && p.diff.Ok?
    requires k < |choices|
    requires forall i :: 0 <= i < k ==> Classify(choices[i]) == Regenerate
    requires Classify(choices[k]) == Accept
    requires forall j :: 0 <= j <= k ==> Succeeds(gen, p.diff.value.0, j)
    ensures var diff := p.diff.value.0;
      var t := Flow(p, git, gen, choices);
      && Succeeds(gen, diff, k)
      && Generations(t.events) == k + 1
      && Commits(t.events) == 1
      && t.events[|t.events| - 1] == Exec(Commit(gen(diff, k).value))
      && (git(Commit(gen(diff, k).value)).Exited? ==> t.outcome == Exit(0))
  {
    var diff := p.diff.value.0;
    assert Succeeds(gen, diff, 0);
    var message := gen(diff, 0).value;
    var o := Opening(diff, p.diff.value.1);
    var answers := Answers(choices);
    var r := Review(diff, message, answers, 1, git, gen);
    var t := Flow(p, git, gen, choices);
    assert t == Trace(Checks + (o + r.events), r.outcome);
    forall j | 1 <= j < 1 + k
      ensures Succeeds(gen, diff, j)
    {
    }
    RegenerateThenAccept(diff, message, answers, k, 1, git, gen);
    assert Shown(message, diff, 1, gen, k) == gen(diff, k);
    GenerationsThenCommit(diff, gen(diff, k).value, k);
    ChecksCounts();
    OpeningFacts(diff, p.diff.value.1);
    CountsAppend(o, r.events);
    CountsAppend(Checks, o + r.events);
    assert t.events[|t.events| - 1] == r.events[|r.events| - 1];
  }
}
