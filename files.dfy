/**
 * An abstract file system standing in for Node's `fs`: `existsSync` holds of
 * directories and files alike, `readFile` succeeds only on files.
 */
module Files {

  datatype Option<T> = None | Some(value: T)

  /** The settled state of a read: its contents, or the rejection of the
      promise, naming the path that could not be read. */
  datatype IoResult<T> = Done(value: T) | IoError(path: string) {
    predicate IsFailure() {
      IoError?
    }

    function PropagateFailure<U>(): IoResult<U>
      requires IoError?
    {
      IoError(path)
    }

    function Extract(): T
      requires Done?
    {
      value
    }
  }

  datatype FileSystem = FileSystem(dirs: set<string>, files: map<string, string>)

  /** `fs.existsSync(p)`. */
  predicate Exists(fs: FileSystem, p: string) {
    p in fs.dirs || p in fs.files
  }

  /** Every path that exists. */
  function ExistingPaths(fs: FileSystem): (ps: set<string>)
    ensures forall p :: p in ps <==> Exists(fs, p)
  {
    fs.dirs + fs.files.Keys
  }

  /** `readFile(p)` with "utf8": the whole text of a file, or a rejection. */
  function ReadFile(fs: FileSystem, p: string): (r: IoResult<string>)
    ensures r.Done? <==> p in fs.files
    ensures r.Done? ==> r.value == fs.files[p]
    ensures r.IoError? ==> r.path == p
  {
    if p in fs.files then Done(fs.files[p]) else IoError(p)
  }

  /** Overwrites (or creates) a file. */
  function WriteFile(fs: FileSystem, p: string, contents: string): (fs': FileSystem)
    ensures ReadFile(fs', p) == Done(contents)
  {
    fs.(files := fs.files[p := contents])
  }

  /** Writing one file leaves every other path as it was. */
  lemma WriteFileSparesOthers(fs: FileSystem, p: string, contents: string, q: string)
    requires q != p
    ensures ReadFile(WriteFile(fs, p, contents), q) == ReadFile(fs, q)
    ensures Exists(WriteFile(fs, p, contents), q) <==> Exists(fs, q)
  {
  }
}
