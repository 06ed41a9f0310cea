/** `compareOutputs`: read the expected and the obtained output, refine both,
    and compare the refined texts for exact equality. */
module Comparator {
  import opened Files
  import opened Normalizer

  /** Reads the expected file first, then the obtained one. */
  function CompareOutputs(fs: FileSystem, expectedPath: string, obtainedPath: string): IoResult<bool> {
    var expected :- ReadFile(fs, expectedPath);
    var obtained :- ReadFile(fs, obtainedPath);
    Done(Refine(expected) == Refine(obtained))
  }

  /** A failed read rejects instead of answering false, naming the expected
      file when that one is missing; otherwise the answer is whether the two
      refined texts are equal. */
  lemma CompareOutputsSpec(fs: FileSystem, expectedPath: string, obtainedPath: string)
    ensures var r := CompareOutputs(fs, expectedPath, obtainedPath);
      && (r.IoError? <==> expectedPath !in fs.files || obtainedPath !in fs.files)
      && (r.IoError? ==> r.path == if expectedPath !in fs.files then expectedPath else obtainedPath)
      && (r.Done? ==> (r.value <==> Refine(fs.files[expectedPath]) == Refine(fs.files[obtainedPath])))
  {
  }

  /** Outputs that differ only in carriage returns and in trailing whitespace
      are judged equal. */
  lemma CompareIgnoresLineEndsAndTrailingSpace(fs: FileSystem, expectedPath: string, obtainedPath: string, w: string)
    requires expectedPath in fs.files && obtainedPath in fs.files
    requires AllSpace(w)
    requires DeleteAll(fs.files[obtainedPath], '\r') == DeleteAll(fs.files[expectedPath], '\r') + w
    ensures CompareOutputs(fs, expectedPath, obtainedPath) == Done(true)
  {
    var e, o := fs.files[expectedPath], fs.files[obtainedPath];
    RefineIgnoresCarriageReturns(o);
    RefineIgnoresTrailingWhitespace(DeleteAll(e, '\r'), w);
    RefineIgnoresCarriageReturns(e);
  }

  /** Judging outputs equal is an equivalence between the files read. */
  lemma CompareIsEquivalence(fs: FileSystem, a: string, b: string, c: string)
    requires a in fs.files && b in fs.files && c in fs.files
    ensures CompareOutputs(fs, a, a) == Done(true)
    ensures CompareOutputs(fs, a, b) == CompareOutputs(fs, b, a)
    ensures CompareOutputs(fs, a, b) == Done(true) && CompareOutputs(fs, b, c) == Done(true)
            ==> CompareOutputs(fs, a, c) == Done(true)
  {
  }
}
