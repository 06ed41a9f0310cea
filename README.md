# Test-case runner of a competitive-programming editor extension

This project models `runTestCases` from `src/features/run_test_cases/run_test_cases.ts` and its helpers `compareOutputs`, `refine` and `readFile`. The command runs a solution file against the fixtures in the `Tests/` folder beside it:

- It checks that the solution exists, then that `Tests/` exists, then compiles.
- It walks the fixtures 1, 2, ... until the first missing `input_i.txt`. For each one it runs the solution, compares expected against obtained output, appends a record to `Tests/result.txt` and raises the editor's notifications.

The model is split into modules, one per file:

- `normalizer.dfy` (`Normalizer`) holds `refine` as a pipeline of three functions:
  - `TrimStart`/`TrimEnd`, over the full ECMAScript white-space and line-terminator set of `String.prototype.trim`;
  - `DeleteAll` for `replace(/\r/g, "")`;
  - `DropSpaceBeforeNewline` for `replace(/ \n/g, "\n")`, scanning left to right over non-overlapping matches.

  Its lemmas state what each step guarantees and how `refine` treats carriage returns, trailing whitespace and runs of spaces.
- `files.dfy` (`Files`) is the file system the session reads and writes:
  - `existsSync` holds for files and directories alike;
  - `readFile` either yields the text or rejects with the path.
- `comparator.dfy` (`Comparator`) holds `compareOutputs`. It reads the expected file first, refines both texts and compares them exactly. A failed read rejects rather than answering `false`.
- `decimal.dfy` (`Decimal`) and `paths.dfy` (`Paths`) cover the naming of things:
  - the decimal numeral that `${i}` prints;
  - the problem folder and the `Tests/` folder;
  - the names `input_i.txt`, `output_i.txt`, `code_output_i.txt`, `stderr_i.txt` and `result.txt`.
- `report.dfy` (`Report`) holds the exact text of a `result.txt` record and the exact notifications.
- `session.dfy` (`Session`) holds `runTestCases` itself:
  - The early exits come first.
  - Then the `while (true)` loop runs as a method whose local file system evolves as the runner writes each fixture's obtained output and standard error.
  - The loop is proved equal to `Walk`, a recursive function that follows the loop's own branches.
  - `WalkFulfils` proves what the loop promises: which fixtures were processed and in what order, the record each appended, where an abort stops, and when success is announced.

The session's environment `Env` stands in for the collaborators this file calls but does not define:

- the answer of `compileFile`;
- the settled value of `runTestsWithTimeout` for each fixture index: `"Run time error"`, a normal finish that leaves `code_output_i.txt` (and `stderr_i.txt` when produced), or a throw. A run is assumed to write no other file (see "## Left out");
- whether `appendFileSync` throws for a fixture.

The log is modelled as the sequence of entries that this session appends. `Report.Render` gives the text of each entry. Notifications are modelled as a sequence of events, and `Report.Notify` gives each event's text.

Three behaviours of the code are worth stating outright:

- `refine` is not idempotent: `refine("a  \nb")` is `"a \nb"` and refining again gives `"a\nb"`, because one `/ \n/g` pass removes only one space of a run.
- This file raises no notification when compiling fails, when the run settles to `"Run time error"` or throws, when a read fails, or when the append throws; whatever `compileFile` or `runTestsWithTimeout` show themselves is not modelled.
- The Standard Error section appears whenever `stderr_i.txt` exists, even when it is empty.

## Model

| member | source | states |
|---|---|---|
| Normalizer.TrimStartSpec | src/features/run_test_cases/run_test_cases.ts:166 | the leading trim removes a whitespace prefix and the longest one: what remains is a suffix of the text, and it is empty or starts with a non-whitespace character |
| Normalizer.TrimEndSpec | src/features/run_test_cases/run_test_cases.ts:166 | the trailing trim removes the longest whitespace suffix: what remains is a prefix, and it is empty or ends with a non-whitespace character |
| Normalizer.TrimSpec | src/features/run_test_cases/run_test_cases.ts:166 | `trim()` leaves text that neither starts nor ends with whitespace, and it is empty exactly when the whole text was whitespace |
| Normalizer.DeleteAllSpec | src/features/run_test_cases/run_test_cases.ts:167 | after `replace(/\r/g, "")` no carriage return is left, every other character is kept as often as it occurred, and a first or last character other than `\r` stays in place |
| Normalizer.DropMatchesPerPositionRule | src/features/run_test_cases/run_test_cases.ts:168 | the left-to-right `/ \n/g` replacement equals an independent per-position rule: a character is dropped exactly when it is a space directly before a newline |
| Normalizer.DropConcat | src/features/run_test_cases/run_test_cases.ts:168 | the replacement works piecewise on two texts whose junction does not split a `" \n"` |
| Normalizer.SpaceRunInContextLosesOne | src/features/run_test_cases/run_test_cases.ts:168 | a maximal run of k >= 1 spaces before a newline loses exactly one space, and the text around it is processed independently |
| Normalizer.RefineSpec | src/features/run_test_cases/run_test_cases.ts:165-171 | a refined text holds no carriage return and neither starts nor ends with whitespace |
| Normalizer.RefineIgnoresCarriageReturns | src/features/run_test_cases/run_test_cases.ts:165-171 | deleting carriage returns beforehand does not change `refine`, so a CRLF file refines like its LF version |
| Normalizer.RefineIgnoresTrailingWhitespace | src/features/run_test_cases/run_test_cases.ts:165-171 | appending any whitespace (blank lines, a final newline) does not change the refined text |
| Normalizer.RefineNotIdempotent | src/features/run_test_cases/run_test_cases.ts:165-171 | `refine("a  \nb")` is `"a \nb"` and refining that again gives `"a\nb"`, so `refine` is not idempotent |
| Normalizer.TrailingSpaceScenario | src/features/run_test_cases/run_test_cases.ts:165-171 | expected `"5\n"` and obtained `"5 \n"` refine to the same text |
| Normalizer.CrlfScenario | src/features/run_test_cases/run_test_cases.ts:165-171 | `"a\r\nb"` and `"a\nb"` refine to the same text |
| Comparator.CompareOutputsSpec | src/features/run_test_cases/run_test_cases.ts:132-163 | the comparison rejects exactly when one of the two files cannot be read, naming the expected file first when both are missing; otherwise it answers whether the two refined texts are equal |
| Comparator.CompareIgnoresLineEndsAndTrailingSpace | src/features/run_test_cases/run_test_cases.ts:132-163 | an obtained output that, once carriage returns are deleted, is the expected one plus trailing whitespace compares equal |
| Comparator.CompareIsEquivalence | src/features/run_test_cases/run_test_cases.ts:158-162 | on readable files the verdict is reflexive, symmetric and transitive |
| Decimal.ParseNatToString | src/features/run_test_cases/run_test_cases.ts:46 | the numeral printed for a fixture index reads back as that index |
| Decimal.NatToStringInjective | src/features/run_test_cases/run_test_cases.ts:46 | distinct indices print differently |
| Paths.LastIndexOf | src/features/run_test_cases/run_test_cases.ts:22 | `lastIndexOf("/")` is -1 or the position of a `/`, and no `/` follows it |
| Paths.ProblemFolder | src/features/run_test_cases/run_test_cases.ts:22-23 | the problem folder is the prefix of the path up to and including its last `/`, or empty when there is none |
| Paths.TestsFolder | src/features/run_test_cases/run_test_cases.ts:22-26 | the Tests folder is the problem folder followed by `Tests/` |
| Paths.TestsFolderOfFileInDirectory | src/features/run_test_cases/run_test_cases.ts:22-26 | a solution file directly inside a directory has its Tests folder in that directory |
| Paths.FixturePathInjective | src/features/run_test_cases/run_test_cases.ts:46-54 | two fixture file names are equal only for the same kind and the same index |
| Paths.ResultPathIsNoFixture | src/features/run_test_cases/run_test_cases.ts:41-54 | `result.txt` is never a fixture file |
| Report.RecordHeadNamesFixture | src/features/run_test_cases/run_test_cases.ts:78 | the record starts with `Input `, and the digits between that and the following `:` read back as the fixture index |
| Report.NotifyInjective | src/features/run_test_cases/run_test_cases.ts:18-121 | the notifications of lines 18 ("Problem solution file not found."), 29 ("Tests not found."), 92-95 (`Test ${i} failed`) and 118-121 ("All test cases passed.") are pairwise different; in particular a failure notification names its fixture |
| Session.RecordForSpec | src/features/run_test_cases/run_test_cases.ts:69-83 | after a finished run, the fixture's record is built exactly when the expected, obtained and input files can be read, as can the standard error file when it exists; the verdict is the refined comparison; the entry holds the raw texts, with a standard-error part exactly when that file exists |
| Session.FsAfterSparesLaterFixtures | src/features/run_test_cases/run_test_cases.ts:57-64 | the runs of fixtures 1..n change no file of any later fixture |
| Session.InputsBound | src/features/run_test_cases/run_test_cases.ts:45-50 | if inputs 1..n all exist, n is at most the number of existing paths, so the modelled loop ends |
| Session.ProcessFixture | src/features/run_test_cases/run_test_cases.ts:56-110 | the try block for fixture i, run on the files as earlier runs left them, takes fixture i's step and leaves the files as its own run leaves them |
| Session.RunFixtures | src/features/run_test_cases/run_test_cases.ts:43-129 | the `while (true)` loop with the closing verdict ends in an abort or a normal finish, with exactly the outcome, log and notifications of `Walk` from fixture 1 |
| Session.WalkFulfils | src/features/run_test_cases/run_test_cases.ts:43-129 | continuing the loop from any consistent point gives these results: fixtures 1..n exist and each appended its own entry in order; an abort happens at fixture n+1, which exists, with only the earlier failures announced; a normal finish happens at the first missing input, with "All test cases passed." announced after the failures exactly when every fixture matched |
| Session.SessionFulfils | src/features/run_test_cases/run_test_cases.ts:43-129 | the same guarantees hold for the whole walk from fixture 1 with an empty log |
| Session.RunTestCases | src/features/run_test_cases/run_test_cases.ts:8-130 | a missing solution, then a missing Tests folder, then a failed compile each end the session with nothing logged and, respectively, "Problem solution file not found.", "Tests not found." and no notification; otherwise the fixtures are walked as `Walk` describes |
| Session.NoFailureEventsIffAllMatched | src/features/run_test_cases/run_test_cases.ts:90-129 | no failure notification was raised exactly when every processed fixture matched |
| Session.StopsAtFirstGap | src/features/run_test_cases/run_test_cases.ts:45-50 | when inputs 1 and 2 exist and input 3 does not, a session walk from fixture 1 that ends normally has logged exactly two fixtures, whatever lies beyond the gap |

## Left out

- The editor's UI is not modelled. This covers the buttons on the notifications, the clicks on them and the `showTextDocument` calls they trigger. A notification is recorded as an event whose text is given by `Report.Notify`.
- `compileFile` and `runTestsWithTimeout` are not part of this model. Their answers are parameters of `Env`.
- How `runTestsWithTimeout` settles on a timeout is not part of this model: a timeout aborts only if the runner settles to `"Run time error"` or throws; any other value that leaves `code_output_i.txt` is modelled as `Ok` and compared.
- A run is assumed to write only `code_output_i.txt` and, when produced, `stderr_i.txt`. Other files the solution writes in `Tests/` (an overwritten `output_i.txt`, a new `input_{i+1}.txt`) are not modelled; `Session.FsAfterSparesLaterFixtures` and the termination bound `Session.InputsBound` rest on this assumption, and a solution that keeps creating the next input would make the real `while (true)` loop run forever. A run that settles to another value without leaving `code_output_i.txt` ends the session as a throw does (the failed read of the obtained output rejects), and is modelled as `Throws`.
- `Utils.pathRefine` and the `platform()` check are not part of this model. The session starts from the refined path.
- `console.log` output and the promise and `await` plumbing are left out. Each `await` is modelled as the value it settles to.
- The `"Could not write result."` callback is left out. `appendFileSync` takes no callback, so that message is never shown. A throwing append is modelled by `Env.appendFails` and aborts the session.
- The earlier contents of `result.txt` are left out. The log is the sequence of entries this session appends, in order, and `Report.Render` gives the exact text each entry adds.
- `readFile` is modelled as a lookup in the `files` map of the file system (`Files.ReadFile`); a directory, a missing file and a permission error count as a path not in `files`; malformed UTF-8 does not reject (Node decodes it with U+FFFD replacement characters), so such a file is in `files` with its decoded text, and nothing about Node's `fs.readFile` beyond that lookup is proved.
- The text of a record is the definition `Report.Render`, built in the same order as the template literals of lines 78-83; only the fixture index written into it is proved to read back (`Report.RecordHeadNamesFixture`).
- Strings are sequences of characters. JavaScript's UTF-16 code units and the UTF-8 decoding of `readFile` are not modelled.
