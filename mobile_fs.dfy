/**
 * The file system as the mobile services see it through react-native-fs:
 * regular files with their bytes, and directories with the entry names
 * `readDir` returns for them, in that order.  Paths are plain strings; a
 * child of `d` named `n` is `d + "/" + n`.
 */
module MobileFs {
  import opened Common

  datatype Fs = Fs(files: map<string, seq<Byte>>, dirs: map<string, seq<string>>)

  /** No path is both a file and a directory. */
  predicate Wf(fs: Fs) {
    fs.files.Keys !! fs.dirs.Keys
  }

  /** `${path}/${name}`. */
  function Child(path: string, name: string): (r: string)
    ensures |r| > |path| && StartsWith(r, path + "/")
  {
    path + "/" + name
  }

  /** What `RNFS.stat` reports; `NoEntry` is the error it raises. */
  datatype Stat = IsFile(size: nat) | IsDir | NoEntry

  function StatOf(fs: Fs, p: string): Stat {
    if p in fs.files then IsFile(|fs.files[p]|)
    else if p in fs.dirs then IsDir
    else NoEntry
  }

  /** `RNFS.exists`. */
  predicate Exists(fs: Fs, p: string) {
    p in fs.files || p in fs.dirs
  }

  /** The error an operation raises. */
  datatype FsError = NoSuchFile(path: string) | IsADirectory(path: string)

  datatype FsResult = Ok(fs: Fs) | Failed(error: FsError)

  /** The bytes of `p`, or nothing when it is not a file. */
  function Content(fs: Fs, p: string): seq<Byte> {
    if p in fs.files then fs.files[p] else []
  }

  /** `RNFS.appendFile`: creates a missing file, extends an existing one, refuses a directory. */
  function Append(fs: Fs, p: string, data: seq<Byte>): (r: FsResult)
    ensures r.Ok? <==> p !in fs.dirs
    ensures r.Ok? ==> r.fs.dirs == fs.dirs && r.fs.files == fs.files[p := Content(fs, p) + data]
  {
    if p in fs.dirs then Failed(IsADirectory(p))
    else Ok(fs.(files := fs.files[p := Content(fs, p) + data]))
  }

  /**
   * `RNFS.moveFile` as a rename: the source file must exist, a directory
   * cannot be replaced, an existing destination file is replaced.
   */
  function Move(fs: Fs, src: string, dst: string): (r: FsResult)
    ensures r.Ok? <==> src in fs.files && dst !in fs.dirs
    ensures r.Ok? ==> r.fs.dirs == fs.dirs && r.fs.files == (fs.files - {src})[dst := fs.files[src]]
  {
    if src !in fs.files then Failed(NoSuchFile(src))
    else if dst in fs.dirs then Failed(IsADirectory(dst))
    else Ok(fs.(files := (fs.files - {src})[dst := fs.files[src]]))
  }

  /** `q` lies strictly inside directory `d`. */
  predicate Under(q: string, d: string) {
    StartsWith(q, d + "/")
  }

  /** A path inside a child of `p`, or the child itself, lies inside `p`. */
  lemma UnderChild(x: string, p: string, name: string)
    requires x == Child(p, name) || Under(x, Child(p, name))
    ensures Under(x, p)
  {
    var c := Child(p, name);
    if x != c {
      assert x[..|c| + 1] == c + "/";
      assert x[..|p| + 1] == (c + "/")[..|p| + 1];
    }
    assert c[..|p| + 1] == p + "/";
  }

  /** `RNFS.unlink`: removes a file, or a directory with everything inside it. */
  function Unlink(fs: Fs, p: string): (r: FsResult)
    ensures r.Ok? <==> Exists(fs, p)
    ensures r.Ok? && Wf(fs) ==> !Exists(r.fs, p)
    ensures r.Ok? && p in fs.files ==> r.fs.dirs == fs.dirs && r.fs.files == fs.files - {p}
  {
    if p in fs.files then Ok(fs.(files := fs.files - {p}))
    else if p in fs.dirs then
      Ok(Fs(map q | q in fs.files && !Under(q, p) :: fs.files[q],
            map q | q in fs.dirs && q != p && !Under(q, p) :: fs.dirs[q]))
    else Failed(NoSuchFile(p))
  }

  /** The longest path in `s`. */
  ghost function MaxLen(s: set<string>): (m: nat)
    ensures forall x :: x in s ==> |x| <= m
  {
    if s == {} then 0
    else
      var x :| x in s;
      var m := MaxLen(s - {x});
      if |x| > m then |x| else m
  }

  /**
   * A bound on how deep the directory tree goes below `p`: a child path is
   * longer than its parent and no directory is longer than `MaxLen`.
   */
  ghost function Height(fs: Fs, p: string): nat {
    if p in fs.dirs then MaxLen(fs.dirs.Keys) - |p| + 1 else 0
  }

  lemma ChildLower(fs: Fs, p: string, name: string)
    requires p in fs.dirs
    ensures Height(fs, Child(p, name)) < Height(fs, p)
  {
  }

  /** The state `readDir` and `stat` observe, for the services that only read it. */
  class Volume {
    var fs: Fs

    constructor (fs0: Fs)
      ensures fs == fs0
    {
      fs := fs0;
    }
  }
}
