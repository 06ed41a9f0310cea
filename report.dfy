/**
 * What a session reports: the entries it appends to `result.txt`, with their
 * exact text, and the notifications it raises in the editor, with their exact
 * wording. The session itself works on the structured values; the texts are
 * given here once.
 */
module Report {
  import opened Files
  import opened Decimal

  /** One record of `result.txt`: the fixture index, its input, expected and
      obtained output, and its standard error when that file was read. */
  datatype Entry = Entry(fixture: nat, input: string, expected: string, obtained: string, stderr: Option<string>)

  /** 56 underscores and a blank line close every record. */
  const Separator: string := "________________________________________________________\n\n"

  predicate StartsWith(s: string, t: string) {
    |t| <= |s| && s[..|t|] == t
  }

  predicate EndsWith(s: string, t: string) {
    |t| <= |s| && s[|s| - |t|..] == t
  }

  /** The opening of a record: the fixture index, its input and its expected output. */
  function RecordHead(i: nat, input: string, expected: string): string {
    "Input " + NatToString(i) + ": \n" + input + "\n\nExpected Output : \n" + expected
  }

  function ObtainedSection(obtained: string): string {
    "\n\nObtained Output : \n" + obtained + "\n\n"
  }

  /** Present whenever a standard error file was read, even an empty one. */
  function StderrSection(stderr: Option<string>): string {
    match stderr
    case None => ""
    case Some(s) => "Standard Error : \n" + s + "\n\n"
  }

  /** The text appended to `result.txt` for an entry. */
  function Render(e: Entry): string {
    RecordHead(e.fixture, e.input, e.expected) + ObtainedSection(e.obtained) + StderrSection(e.stderr) + Separator
  }

  lemma MiddlePart(a: string, b: string, c: string)
    ensures (a + b + c)[|a|..|a| + |b|] == b
  {
  }

  /** Where the first three parts of a text glued from six parts lie. */
  lemma SixParts(a: string, b: string, c: string, x: string, y: string, z: string)
    ensures var r := a + b + c + x + y + z;
      && |r| >= |a| + |b| + |c|
      && r[..|a|] == a && r[|a|..|a| + |b|] == b
      && (|c| > 0 ==> r[|a| + |b|] == c[0])
  {
    var r := a + b + c + x + y + z;
    assert r[..|a| + |b| + |c|] == a + b + c;
  }

  /** The opening of a record names its fixture: the index is read back from
      the text between "Input " and the following ':'. */
  lemma RecordHeadNamesFixture(i: nat, input: string, expected: string)
    ensures var h, d := RecordHead(i, input, expected), NatToString(i);
      && |h| >= 6 + |d| && h[..6] == "Input " && h[6 + |d|] == ':'
      && ParseDecimal(h[6..6 + |d|]) == i
  {
    SixParts("Input ", NatToString(i), ": \n", input, "\n\nExpected Output : \n", expected);
    ParseNatToString(i);
  }

  /** What the session announces. */
  datatype Event = SolutionNotFound | TestsNotFound | TestFailed(fixture: nat) | AllPassed

  /** The editor calls behind the events: `showErrorMessage` with or without
      an action button, and `showInformationMessage` with one. */
  datatype Notification =
    | Error(message: string)
    | ErrorWithAction(message: string, action: string)
    | InfoWithAction(message: string, action: string)

  function Notify(e: Event): Notification {
    match e
    case SolutionNotFound => Error("Problem solution file not found.")
    case TestsNotFound => Error("Tests not found.")
    case TestFailed(i) => ErrorWithAction("Test " + NatToString(i) + " failed", "Show Result")
    case AllPassed => InfoWithAction("All test cases passed.", "Show Results")
  }

  /** Different events show differently: in particular a failure message
      names its fixture. */
  lemma NotifyInjective(e1: Event, e2: Event)
    requires Notify(e1) == Notify(e2)
    ensures e1 == e2
  {
    assert Notify(SolutionNotFound).message[0] == 'P';
    assert Notify(TestsNotFound).message[0] == 'T';
    if e1.TestFailed? && e2.TestFailed? {
      var d1, d2 := NatToString(e1.fixture), NatToString(e2.fixture);
      MiddlePart("Test ", d1, " failed");
      MiddlePart("Test ", d2, " failed");
      assert |d1| == |d2|;
      NatToStringInjective(e1.fixture, e2.fixture);
    }
  }
}
