/**
 * `runTestCases`: one test session over a solution file. It checks that the
 * solution and its Tests folder exist, compiles, then walks the fixtures
 * 1, 2, ... until the first missing input file, running, comparing and
 * appending one record per fixture to the result log.
 *
 * The compiler, the process runner and the append to `result.txt` are
 * collaborators whose behaviour is given by the environment `Env`; the
 * editor's notifications are recorded as a trace of events.
 */
module Session {
  import opened Files
  import opened Normalizer
  import opened Comparator
  import opened Decimal
  import opened Paths
  import opened Report

  /** How `runTestsWithTimeout` settles for one fixture: the literal
      "Run time error", a normal finish having written the obtained output
      (and standard error, when the runner created that file), or a throw.
      A run is taken to write no other file; one that settles without leaving
      the obtained output fails its read and is modelled as `Throws`. */
  datatype RunResult = RunTimeError | Ok(output: string, stderr: Option<string>) | Throws

  /** The world a session runs in: the files on disk and the answers of the
      compiler, of the runner for each fixture index, and of the append to the
      result log for each fixture index. */
  datatype Env = Env(fs: FileSystem, compiles: bool, run: nat -> RunResult, appendFails: nat -> bool)

  /** How a session ended. */
  datatype Outcome =
    | SolutionMissing
    | TestsMissing
    | CompileFailed
    | Aborted(fixture: nat)
    | Finished(passed: bool)

  /** `fs.existsSync(p)` followed by `readFile(p)` when it holds. */
  function ReadIfExists(fs: FileSystem, p: string): IoResult<Option<string>> {
    if Exists(fs, p) then
      var s :- ReadFile(fs, p);
      Done(Some(s))
    else Done(None)
  }

  /** The record of a fixture whose run finished, and whether its outputs matched. */
  datatype Verdict = Verdict(entry: Entry, matched: bool)

  /** Everything between a finished run and the append: compare, read the
      input, expected and obtained files, and the standard error file when it
      exists. Any failed read rejects. */
  function RecordFor(fs: FileSystem, dir: string, i: nat): IoResult<Verdict>
  {
    var matched :- CompareOutputs(fs, FixturePath(dir, ExpectedOutput, i), FixturePath(dir, CodeOutput, i));
    var input :- ReadFile(fs, FixturePath(dir, Input, i));
    // the comparison has just read these two, so reading them again succeeds
    var expected := ReadFile(fs, FixturePath(dir, ExpectedOutput, i)).value;
    var obtained := ReadFile(fs, FixturePath(dir, CodeOutput, i)).value;
    var stderr :- ReadIfExists(fs, FixturePath(dir, Stderr, i));
    Done(Verdict(Entry(i, input, expected, obtained, stderr), matched))
  }

  /** The comparison verdict is the refined equality of the expected and the
      obtained output; the record holds the raw input, expected and obtained
      texts, and a standard error section exactly when that file exists, even
      when it is empty; any unreadable file rejects. */
  lemma RecordForSpec(fs: FileSystem, dir: string, i: nat)
    ensures var inP, expP, obtP, errP :=
              FixturePath(dir, Input, i), FixturePath(dir, ExpectedOutput, i),
              FixturePath(dir, CodeOutput, i), FixturePath(dir, Stderr, i);
      var r := RecordFor(fs, dir, i);
      && (r.Done? <==>
            (expP in fs.files && obtP in fs.files && inP in fs.files && (Exists(fs, errP) ==> errP in fs.files)))
      && (r.Done? ==> (r.value.matched <==> Refine(fs.files[expP]) == Refine(fs.files[obtP])))
      && (r.Done? ==> r.value.entry == Entry(i, fs.files[inP], fs.files[expP], fs.files[obtP],
                                             if Exists(fs, errP) then Some(fs.files[errP]) else None))
  {
  }

  /** The files a finished run leaves behind: the obtained output, and the
      standard error when the runner produced it; no other file changes. */
  function AfterRun(fs: FileSystem, dir: string, i: nat, output: string, stderr: Option<string>): FileSystem {
    var fs' := WriteFile(fs, FixturePath(dir, CodeOutput, i), output);
    if stderr.Some? then WriteFile(fs', FixturePath(dir, Stderr, i), stderr.value) else fs'
  }

  /** The file system after the runs of fixtures 1..n. */
  function FsAfter(env: Env, dir: string, n: nat): FileSystem {
    if n == 0 then env.fs
    else match env.run(n)
      case Ok(output, stderr) => AfterRun(FsAfter(env, dir, n - 1), dir, n, output, stderr)
      case _ => FsAfter(env, dir, n - 1)
  }

  /** What processing fixture i (whose input exists) does to the session. */
  datatype Step = Aborts | Appends(entry: Entry, matched: bool)

  /** Fixture i processed against the files as its own run leaves them. */
  function FixtureStep(env: Env, dir: string, i: nat): Step {
    match env.run(i)
    case Ok(output, stderr) =>
      (match RecordFor(AfterRun(env.fs, dir, i, output, stderr), dir, i)
       case Done(v) => if env.appendFails(i) then Aborts else Appends(v.entry, v.matched)
       case IoError(_) => Aborts)
    case _ => Aborts
  }

  /** The steps of fixtures 1..n, in order. */
  function Steps(env: Env, dir: string, n: nat): seq<Step> {
    if n == 0 then [] else Steps(env, dir, n - 1) + [FixtureStep(env, dir, n)]
  }

  predicate AllAppend(steps: seq<Step>) {
    forall k :: 0 <= k < |steps| ==> steps[k].Appends?
  }

  /** The entries the steps append, in order. */
  function Entries(steps: seq<Step>): (r: seq<Entry>)
    requires AllAppend(steps)
  {
    seq(|steps|, k requires 0 <= k < |steps| => steps[k].entry)
  }

  predicate AllMatched(steps: seq<Step>) {
    forall k :: 0 <= k < |steps| ==> steps[k].Appends? && steps[k].matched
  }

  /** The "Test j failed" notifications raised by the steps, in order; step k
      belongs to fixture k + 1. */
  function FailureEvents(steps: seq<Step>): seq<Event> {
    if steps == [] then []
    else
      var last := steps[|steps| - 1];
      FailureEvents(steps[..|steps| - 1]) + (if last.Appends? && !last.matched then [TestFailed(|steps|)] else [])
  }

  // ---------------------------------------------------------------------------
  // Framing: fixture i only looks at its own four files

  predicate SameAt(a: FileSystem, b: FileSystem, p: string) {
    (Exists(a, p) <==> Exists(b, p)) && ReadFile(a, p) == ReadFile(b, p)
  }

  predicate SameFixtureFiles(a: FileSystem, b: FileSystem, dir: string, i: nat) {
    forall f: FixtureFile :: SameAt(a, b, FixturePath(dir, f, i))
  }

  lemma RecordForIsLocal(a: FileSystem, b: FileSystem, dir: string, i: nat)
    requires SameFixtureFiles(a, b, dir, i)
    ensures RecordFor(a, dir, i) == RecordFor(b, dir, i)
  {
    assert SameAt(a, b, FixturePath(dir, Input, i));
    assert SameAt(a, b, FixturePath(dir, ExpectedOutput, i));
    assert SameAt(a, b, FixturePath(dir, CodeOutput, i));
    assert SameAt(a, b, FixturePath(dir, Stderr, i));
  }

  lemma AfterRunKeepsSame(a: FileSystem, b: FileSystem, dir: string, i: nat, output: string, stderr: Option<string>)
    requires SameFixtureFiles(a, b, dir, i)
    ensures SameFixtureFiles(AfterRun(a, dir, i, output, stderr), AfterRun(b, dir, i, output, stderr), dir, i)
  {
  }

  /** A run of fixture n touches no file of a later fixture. */
  lemma AfterRunSparesOthers(fs: FileSystem, dir: string, n: nat, j: nat, output: string, stderr: Option<string>)
    requires n != j
    ensures SameFixtureFiles(AfterRun(fs, dir, n, output, stderr), fs, dir, j)
  {
    forall f: FixtureFile
      ensures SameAt(AfterRun(fs, dir, n, output, stderr), fs, FixturePath(dir, f, j))
    {
      var p, out, err := FixturePath(dir, f, j), FixturePath(dir, CodeOutput, n), FixturePath(dir, Stderr, n);
      if p == out {
        FixturePathInjective(dir, f, CodeOutput, j, n);
      }
      if p == err {
        FixturePathInjective(dir, f, Stderr, j, n);
      }
      var fs' := WriteFile(fs, out, output);
      WriteFileSparesOthers(fs, out, output, p);
      if stderr.Some? {
        WriteFileSparesOthers(fs', err, stderr.value, p);
      }
    }
  }

  lemma {:induction false} FsAfterSparesLaterFixtures(env: Env, dir: string, n: nat, j: nat)
    requires j > n
    ensures SameFixtureFiles(FsAfter(env, dir, n), env.fs, dir, j)
  {
    if n > 0 {
      FsAfterSparesLaterFixtures(env, dir, n - 1, j);
      match env.run(n)
      case Ok(output, stderr) =>
        AfterRunSparesOthers(FsAfter(env, dir, n - 1), dir, n, j, output, stderr);
      case _ =>
    }
  }

  // ---------------------------------------------------------------------------
  // Termination: only finitely many input files exist

  /** The input files of fixtures 1..n all exist. */
  predicate InputsExist(fs: FileSystem, dir: string, n: nat) {
    n == 0 || (InputsExist(fs, dir, n - 1) && Exists(fs, FixturePath(dir, Input, n)))
  }

  lemma {:induction false} InputsExistEach(fs: FileSystem, dir: string, n: nat)
    ensures InputsExist(fs, dir, n) <==> forall j :: 1 <= j <= n ==> Exists(fs, FixturePath(dir, Input, j))
  {
    if n > 0 {
      InputsExistEach(fs, dir, n - 1);
    }
  }

  function InputSet(dir: string, n: nat): set<string> {
    if n == 0 then {} else InputSet(dir, n - 1) + {FixturePath(dir, Input, n)}
  }

  lemma {:induction false} InputSetSize(dir: string, n: nat)
    ensures |InputSet(dir, n)| == n
    ensures forall m :: m > n ==> FixturePath(dir, Input, m) !in InputSet(dir, n)
  {
    if n > 0 {
      InputSetSize(dir, n - 1);
      forall m | m > n
        ensures FixturePath(dir, Input, m) != FixturePath(dir, Input, n)
      {
        if FixturePath(dir, Input, m) == FixturePath(dir, Input, n) {
          FixturePathInjective(dir, Input, Input, m, n);
        }
      }
    }
  }

  lemma {:induction false} InputSetExists(fs: FileSystem, dir: string, n: nat)
    requires InputsExist(fs, dir, n)
    ensures InputSet(dir, n) <= ExistingPaths(fs)
  {
    if n > 0 {
      InputSetExists(fs, dir, n - 1);
    }
  }

  /** If inputs 1..n all exist, there are at least n paths. */
  lemma InputsBound(fs: FileSystem, dir: string, n: nat)
    requires InputsExist(fs, dir, n)
    ensures n <= |ExistingPaths(fs)|
  {
    InputSetSize(dir, n);
    InputSetExists(fs, dir, n);
    SubsetSize(InputSet(dir, n), ExistingPaths(fs));
  }

  lemma SubsetSize<T>(a: set<T>, b: set<T>)
    requires a <= b
    ensures |a| <= |b|
  {
    assert b == a + (b - a);
  }

  // ---------------------------------------------------------------------------
  // The session

  /** The try block for one fixture whose input exists: run the solution,
      compare, read the files back and build the entry, and append it, or
      abort. It is fixture i's step, taken on the files as the earlier runs
      left them. */
  method ProcessFixture(env: Env, dir: string, i: nat, fs: FileSystem) returns (step: Step, fs': FileSystem)
    requires i >= 1 && fs == FsAfter(env, dir, i - 1)
    ensures step == FixtureStep(env, dir, i)
    ensures fs' == FsAfter(env, dir, i)
  {
    FsAfterSparesLaterFixtures(env, dir, i - 1, i);
    match env.run(i) {
      case RunTimeError =>
        return Aborts, fs;
      case Throws =>
        return Aborts, fs;
      case Ok(output, stderr) =>
        AfterRunKeepsSame(fs, env.fs, dir, i, output, stderr);
        fs' := AfterRun(fs, dir, i, output, stderr);
        RecordForIsLocal(fs', AfterRun(env.fs, dir, i, output, stderr), dir, i);
        var verdict := RecordFor(fs', dir, i);
        if verdict.IoError? || env.appendFails(i) {
          return Aborts, fs';
        }
        step := Appends(verdict.value.entry, verdict.value.matched);
    }
  }

  // How the session's bookkeeping follows one more appended step.

  lemma ExtendEntries(steps: seq<Step>, x: Step)
    requires AllAppend(steps) && x.Appends?
    ensures AllAppend(steps + [x])
    ensures Entries(steps + [x]) == Entries(steps) + [x.entry]
  {
    assert Entries(steps + [x]) == Entries(steps) + [x.entry];
  }

  lemma ExtendMatched(steps: seq<Step>, x: Step)
    ensures AllMatched(steps + [x]) <==> AllMatched(steps) && x.Appends? && x.matched
  {
    var ext := steps + [x];
    assert ext[|steps|] == x;
    assert forall k :: 0 <= k < |steps| ==> ext[k] == steps[k];
  }

  lemma ExtendFailureEvents(steps: seq<Step>, x: Step)
    requires x.Appends?
    ensures FailureEvents(steps + [x])
            == FailureEvents(steps) + (if x.matched then [] else [TestFailed(|steps| + 1)])
  {
    assert (steps + [x])[..|steps|] == steps;
  }

  /** What walking the fixtures of `dir` promises: fixtures 1..|log| exist and
      were processed in order, each appending its own record; an abort stops at
      the next fixture and announces nothing more; a normal end is at the first
      missing input, and success is announced exactly when all matched. */
  predicate WalkedFixtures(env: Env, dir: string, outcome: Outcome, log: seq<Entry>, events: seq<Event>) {
    && AppendedInOrder(env, dir, log)
    && match outcome
       case Aborted(i) => i == |log| + 1 && AbortedAfter(env, dir, log, events)
       case Finished(passed) => FinishedAfter(env, dir, passed, log, events)
       case _ => false
  }

  /** Fixtures 1..|log| exist and each appended its own entry, in order. */
  predicate AppendedInOrder(env: Env, dir: string, log: seq<Entry>) {
    var steps := Steps(env, dir, |log|);
    InputsExist(env.fs, dir, |log|) && AllAppend(steps) && log == Entries(steps)
  }

  /** The next fixture exists and aborts; the failures before it were announced. */
  predicate AbortedAfter(env: Env, dir: string, log: seq<Entry>, events: seq<Event>) {
    && Exists(env.fs, FixturePath(dir, Input, |log| + 1))
    && FixtureStep(env, dir, |log| + 1) == Aborts
    && events == FailureEvents(Steps(env, dir, |log|))
  }

  /** The next input is missing; success is announced after the failures
      exactly when every fixture matched. */
  predicate FinishedAfter(env: Env, dir: string, passed: bool, log: seq<Entry>, events: seq<Event>) {
    var steps := Steps(env, dir, |log|);
    && !Exists(env.fs, FixturePath(dir, Input, |log| + 1))
    && (passed <==> AllMatched(steps))
    && events == FailureEvents(steps) + (if passed then [AllPassed] else [])
  }

  /** The bookkeeping after fixtures 1..n were processed and appended: their
      inputs exist, the log holds their entries in order, `passed` tells
      whether all matched so far, and the failures so far were announced. */
  ghost predicate Walking(env: Env, dir: string, n: nat, log: seq<Entry>, passed: bool, events: seq<Event>) {
    var steps := Steps(env, dir, n);
    && |log| == n
    && InputsExist(env.fs, dir, n)
    && AllAppend(steps) && log == Entries(steps)
    && (passed <==> AllMatched(steps))
    && events == FailureEvents(steps)
  }

  /** The runs so far have not touched the next input file. */
  lemma NextInputUntouched(env: Env, dir: string, n: nat)
    ensures Exists(FsAfter(env, dir, n), FixturePath(dir, Input, n + 1)) <==> Exists(env.fs, FixturePath(dir, Input, n + 1))
  {
    FsAfterSparesLaterFixtures(env, dir, n, n + 1);
    assert SameAt(FsAfter(env, dir, n), env.fs, FixturePath(dir, Input, n + 1));
  }

  /** How a session ends: its outcome, the entries appended to the log and
      the notifications raised. */
  datatype Ending = Ending(outcome: Outcome, log: seq<Entry>, events: seq<Event>)

  /** The loop from fixture i on, given what was logged, decided and
      announced before it: stop at the first missing input with the closing
      verdict, return at an aborting fixture, else append and go on. */
  ghost function Walk(env: Env, dir: string, i: nat, log: seq<Entry>, passed: bool, events: seq<Event>): Ending
    requires i >= 1 && InputsExist(env.fs, dir, i - 1)
    decreases |ExistingPaths(env.fs)| + 1 - i
  {
    if !Exists(env.fs, FixturePath(dir, Input, i)) then
      Ending(Finished(passed), log, events + (if passed then [AllPassed] else []))
    else
      InputsBound(env.fs, dir, i);
      match FixtureStep(env, dir, i)
      case Aborts => Ending(Aborted(i), log, events)
      case Appends(entry, matched) =>
        if matched then Walk(env, dir, i + 1, log + [entry], passed, events)
        else Walk(env, dir, i + 1, log + [entry], false, events + [TestFailed(i)])
  }

  /** Appending the step of fixture i extends the bookkeeping. */
  lemma WalkOn(env: Env, dir: string, i: nat, log: seq<Entry>, passed: bool, events: seq<Event>,
               step: Step, log': seq<Entry>, passed': bool, events': seq<Event>)
    requires i >= 1 && Walking(env, dir, i - 1, log, passed, events)
    requires Exists(env.fs, FixturePath(dir, Input, i))
    requires step == FixtureStep(env, dir, i) && step.Appends?
    requires log' == log + [step.entry]
    requires passed' == (passed && step.matched)
    requires events' == if step.matched then events else events + [TestFailed(i)]
    ensures Walking(env, dir, i, log', passed', events')
  {
    var done := Steps(env, dir, i - 1);
    assert Steps(env, dir, i) == done + [step];
    ExtendEntries(done, step);
    ExtendMatched(done, step);
    ExtendFailureEvents(done, step);
  }

  /** The loop leaves at a missing input with the closing verdict. */
  lemma WalkFinishes(env: Env, dir: string, n: nat, log: seq<Entry>, passed: bool, events: seq<Event>, events': seq<Event>)
    requires Walking(env, dir, n, log, passed, events)
    requires !Exists(env.fs, FixturePath(dir, Input, n + 1))
    requires events' == events + (if passed then [AllPassed] else [])
    ensures WalkedFixtures(env, dir, Finished(passed), log, events')
  {
  }

  /** The loop returns when fixture n + 1 aborts, with what it had appended. */
  lemma WalkAborts(env: Env, dir: string, n: nat, log: seq<Entry>, passed: bool, events: seq<Event>)
    requires Walking(env, dir, n, log, passed, events)
    requires Exists(env.fs, FixturePath(dir, Input, n + 1))
    requires FixtureStep(env, dir, n + 1) == Aborts
    ensures WalkedFixtures(env, dir, Aborted(n + 1), log, events)
  {
  }

  /** Whatever was logged before fixture i, the rest of the loop keeps the
      promises of `WalkedFixtures`. */
  lemma {:induction false} WalkFulfils(env: Env, dir: string, i: nat, log: seq<Entry>, passed: bool, events: seq<Event>)
    requires i >= 1 && Walking(env, dir, i - 1, log, passed, events)
    ensures var e := Walk(env, dir, i, log, passed, events);
      WalkedFixtures(env, dir, e.outcome, e.log, e.events)
    decreases |ExistingPaths(env.fs)| + 1 - i, 1
  {
    if !Exists(env.fs, FixturePath(dir, Input, i)) {
      WalkFinishes(env, dir, i - 1, log, passed, events, Walk(env, dir, i, log, passed, events).events);
    } else if FixtureStep(env, dir, i).Aborts? {
      WalkAborts(env, dir, i - 1, log, passed, events);
    } else {
      InputsBound(env.fs, dir, i);
      WalkAppends(env, dir, i, log, passed, events);
    }
  }

  /** The same, when fixture i exists and appends its entry. */
  lemma {:induction false} WalkAppends(env: Env, dir: string, i: nat, log: seq<Entry>, passed: bool, events: seq<Event>)
    requires i >= 1 && Walking(env, dir, i - 1, log, passed, events)
    requires Exists(env.fs, FixturePath(dir, Input, i)) && FixtureStep(env, dir, i).Appends?
    requires i <= |ExistingPaths(env.fs)|
    ensures var e := Walk(env, dir, i, log, passed, events);
      WalkedFixtures(env, dir, e.outcome, e.log, e.events)
    decreases |ExistingPaths(env.fs)| + 1 - i, 0
  {
    var step := FixtureStep(env, dir, i);
    var passed', events' := passed, events;
    if !step.matched {
      passed', events' := false, events + [TestFailed(i)];
    }
    WalkOn(env, dir, i, log, passed, events, step, log + [step.entry], passed', events');
    WalkFulfils(env, dir, i + 1, log + [step.entry], passed', events');
    assert Walk(env, dir, i, log, passed, events) == Walk(env, dir, i + 1, log + [step.entry], passed', events');
  }

  /** The `while (true)` loop and the closing verdict. */
  method RunFixtures(env: Env, dir: string) returns (outcome: Outcome, log: seq<Entry>, events: seq<Event>)
    ensures outcome.Aborted? || outcome.Finished?
    ensures Ending(outcome, log, events) == Walk(env, dir, 1, [], true, [])
  {
    log, events := [], [];
    var fs := env.fs;
    var i: nat := 1;
    var passed := true;
    ghost var bound := |ExistingPaths(env.fs)|;
    ghost var goal := Walk(env, dir, 1, [], true, []);
    while true
      invariant 1 <= i <= bound + 1
      invariant fs == FsAfter(env, dir, i - 1)
      invariant InputsExist(env.fs, dir, i - 1)
      invariant Walk(env, dir, i, log, passed, events) == goal
      decreases bound + 1 - i
    {
      NextInputUntouched(env, dir, i - 1);
      if !Exists(fs, FixturePath(dir, Input, i)) {
        break;
      }
      InputsBound(env.fs, dir, i);
      var step;
      step, fs := ProcessFixture(env, dir, i, fs);
      if step.Aborts? {
        return Aborted(i), log, events;
      }
      log := log + [step.entry];
      if !step.matched {
        events := events + [TestFailed(i)];
        passed := false;
      }
      i := i + 1;
    }
    if passed {
      events := events + [AllPassed];
    }
    outcome := Finished(passed);
  }

  /** `runTestCases`: the early exits, in order, leave the log untouched; then
      the fixtures of the Tests folder are walked. */
  method RunTestCases(path: string, env: Env) returns (outcome: Outcome, log: seq<Entry>, events: seq<Event>)
    ensures outcome == SolutionMissing <==> !Exists(env.fs, path)
    ensures outcome == TestsMissing <==> Exists(env.fs, path) && !Exists(env.fs, TestsFolder(path))
    ensures outcome == CompileFailed <==>
              Exists(env.fs, path) && Exists(env.fs, TestsFolder(path)) && !env.compiles
    ensures outcome == SolutionMissing ==> log == [] && events == [SolutionNotFound]
    ensures outcome == TestsMissing ==> log == [] && events == [TestsNotFound]
    ensures outcome == CompileFailed ==> log == [] && events == []
    ensures Exists(env.fs, path) && Exists(env.fs, TestsFolder(path)) && env.compiles ==>
              Ending(outcome, log, events) == Walk(env, TestsFolder(path), 1, [], true, [])
  {
    if !Exists(env.fs, path) {
      return SolutionMissing, [], [SolutionNotFound];
    }
    var dir := TestsFolder(path);
    if !Exists(env.fs, dir) {
      return TestsMissing, [], [TestsNotFound];
    }
    if !env.compiles {
      return CompileFailed, [], [];
    }
    outcome, log, events := RunFixtures(env, dir);
  }

  /** A walk of the fixtures from the first one, with nothing logged yet,
      ends as `WalkedFixtures` describes. */
  lemma SessionFulfils(env: Env, dir: string)
    ensures var e := Walk(env, dir, 1, [], true, []);
      WalkedFixtures(env, dir, e.outcome, e.log, e.events)
  {
    WalkFulfils(env, dir, 1, [], true, []);
  }

  // ---------------------------------------------------------------------------
  // Properties of the session's specification

  /** No failure notification was raised exactly when every processed fixture
      matched, so the closing success message and the per-fixture failure
      messages never both appear. */
  lemma {:induction false} NoFailureEventsIffAllMatched(steps: seq<Step>)
    requires AllAppend(steps)
    ensures FailureEvents(steps) == [] <==> AllMatched(steps)
  {
    if steps != [] {
      var init := steps[..|steps| - 1];
      assert steps == init + [steps[|steps| - 1]];
      NoFailureEventsIffAllMatched(init);
    }
  }

  /** With inputs 1..n present and input n + 1 absent, n is the length of
      the contiguous run that starts at 1. */
  lemma GapEndsRun(fs: FileSystem, dir: string, n: nat)
    requires Exists(fs, FixturePath(dir, Input, 1)) && Exists(fs, FixturePath(dir, Input, 2))
    requires !Exists(fs, FixturePath(dir, Input, 3))
    requires InputsExist(fs, dir, n) && !Exists(fs, FixturePath(dir, Input, n + 1))
    ensures n == 2
  {
    InputsExistEach(fs, dir, n);
  }

  /** Fixture enumeration stops at the first gap: with inputs 1 and 2 present
      and input 3 absent, a session walk that ends normally has logged exactly
      two fixtures, whatever lies beyond the gap. */
  lemma StopsAtFirstGap(env: Env, dir: string)
    requires Exists(env.fs, FixturePath(dir, Input, 1)) && Exists(env.fs, FixturePath(dir, Input, 2))
    requires !Exists(env.fs, FixturePath(dir, Input, 3))
    ensures var e := Walk(env, dir, 1, [], true, []);
      e.outcome.Finished? ==> |e.log| == 2
  {
    SessionFulfils(env, dir);
    var e := Walk(env, dir, 1, [], true, []);
    if e.outcome.Finished? {
      GapEndsRun(env.fs, dir, |e.log|);
    }
  }
}
