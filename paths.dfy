/**
 * Where the test runner looks for things: the Tests folder beside the solution
 * file, and the conventional names of each fixture's files inside it.
 */
module Paths {
  import opened Decimal

  /** `s.lastIndexOf(c)`: the last position holding c, or -1. */
  function LastIndexOf(s: string, c: char): (r: int)
    ensures -1 <= r < |s|
    ensures r >= 0 ==> s[r] == c
    ensures forall k :: r < k < |s| ==> s[k] != c
  {
    if s == [] then -1
    else if s[|s| - 1] == c then |s| - 1
    else LastIndexOf(s[..|s| - 1], c)
  }

  /** The solution path up to and including its last '/', or "" when it has none. */
  function ProblemFolder(path: string): (r: string)
    ensures |r| <= |path| && r == path[..|r|]
    ensures r == [] || r[|r| - 1] == '/'
    ensures forall k :: |r| <= k < |path| ==> path[k] != '/'
  {
    path[..LastIndexOf(path, '/') + 1]
  }

  /** The Tests folder: the problem folder followed by "Tests/". */
  function TestsFolder(path: string): (r: string)
    ensures |r| >= 6 && r[|r| - 6..] == "Tests/"
    ensures var n := |r| - 6;
      && n <= |path| && r[..n] == path[..n]
      && (n == 0 || path[n - 1] == '/')
      && (forall k :: n <= k < |path| ==> path[k] != '/')
  {
    var folder := ProblemFolder(path);
    assert (folder + "Tests/")[..|folder|] == folder;
    folder + "Tests/"
  }

  /** A solution named inside a directory has its Tests folder in that directory. */
  lemma TestsFolderOfFileInDirectory(dir: string, name: string)
    requires dir == [] || dir[|dir| - 1] == '/'
    requires '/' !in name
    ensures TestsFolder(dir + name) == dir + "Tests/"
  {
    var path := dir + name;
    var r := TestsFolder(path);
    var n := |r| - 6;
    assert forall k :: |dir| <= k < |path| ==> path[k] == name[k - |dir|] && path[k] != '/';
    assert dir != [] ==> path[|dir| - 1] == '/';
    assert r == r[..n] + r[n..];
  }

  /** The four per-fixture files of the naming convention. */
  datatype FixtureFile = Input | ExpectedOutput | CodeOutput | Stderr

  function Prefix(f: FixtureFile): string {
    match f
    case Input => "input_"
    case ExpectedOutput => "output_"
    case CodeOutput => "code_output_"
    case Stderr => "stderr_"
  }

  /** `${testsFolderPath}<prefix>${i}.txt`. */
  function FixturePath(dir: string, f: FixtureFile, i: nat): string {
    dir + Prefix(f) + NatToString(i) + ".txt"
  }

  /** `${testsFolderPath}result.txt`. */
  function ResultPath(dir: string): string {
    dir + "result.txt"
  }

  /** No two fixture files share a path: kind and index are both recovered
      from the name. */
  lemma FixturePathInjective(dir: string, f: FixtureFile, g: FixtureFile, a: nat, b: nat)
    requires FixturePath(dir, f, a) == FixturePath(dir, g, b)
    ensures f == g && a == b
  {
    var x, y := FixturePath(dir, f, a), FixturePath(dir, g, b);
    assert x[|dir|] == Prefix(f)[0];
    assert y[|dir|] == Prefix(g)[0];
    var lo := |dir| + |Prefix(f)|;
    assert x[lo..|x| - 4] == NatToString(a);
    assert y[lo..|y| - 4] == NatToString(b);
    NatToStringInjective(a, b);
  }

  /** The result log is never one of the fixture files. */
  lemma ResultPathIsNoFixture(dir: string, f: FixtureFile, i: nat)
    ensures ResultPath(dir) != FixturePath(dir, f, i)
  {
    assert ResultPath(dir)[|dir|] == 'r';
    assert FixturePath(dir, f, i)[|dir|] == Prefix(f)[0];
  }
}
