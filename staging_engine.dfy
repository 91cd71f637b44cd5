/**
 * The engine object of data-wipe-final.py (`SecureWipeEngine`) and the
 * parts of its window that drive it: which files a wipe selects, where each
 * one is staged, the staging and undo loops over the shared stop flag, the
 * purge of the staging directory, the two-pass free-space overwrite, and the
 * 30-second countdown before the purge.
 */
module StagingEngine {
  import opened Common
  import opened Staging

  // ----- paths -----

  /** `os.path.commonpath` of two paths: their longest common leading components. */
  function Lcp(a: Path, b: Path): (r: Path)
    ensures IsPrefix(r, a) && IsPrefix(r, b)
    ensures |r| < |a| && |r| < |b| ==> a[|r|] != b[|r|]
    decreases |a|
  {
    if |a| == 0 || |b| == 0 || a[0] != b[0] then [] else [a[0]] + Lcp(a[1..], b[1..])
  }

  /** `q` leads every path of `ts`. */
  predicate PrefixOfAll(q: Path, ts: seq<Path>) {
    forall i :: 0 <= i < |ts| ==> IsPrefix(q, ts[i])
  }

  /** A path that leads two paths leads their common path. */
  lemma {:induction false} LcpGreatest(q: Path, a: Path, b: Path)
    requires IsPrefix(q, a) && IsPrefix(q, b)
    ensures IsPrefix(q, Lcp(a, b))
    decreases |q|
  {
    if |q| > 0 {
      assert a[0] == q[0] == b[0];
      LcpGreatest(q[1..], a[1..], b[1..]);
    }
  }

  /** `os.path.commonpath(target_paths)`. */
  function CommonPath(ts: seq<Path>): (r: Path)
    requires |ts| > 0
    ensures PrefixOfAll(r, ts)
  {
    if |ts| == 1 then ts[0]
    else
      var c := CommonPath(ts[..|ts| - 1]);
      Lcp(c, ts[|ts| - 1])
  }

  /** The common path is the longest path that leads every target. */
  lemma {:induction false} CommonPathGreatest(q: Path, ts: seq<Path>)
    requires |ts| > 0 && PrefixOfAll(q, ts)
    ensures IsPrefix(q, CommonPath(ts))
  {
    if |ts| > 1 {
      CommonPathGreatest(q, ts[..|ts| - 1]);
      LcpGreatest(q, CommonPath(ts[..|ts| - 1]), ts[|ts| - 1]);
    }
  }

  lemma PrefixTrans(a: Path, b: Path, c: Path)
    requires IsPrefix(a, b) && IsPrefix(b, c)
    ensures IsPrefix(a, c)
  {
    assert c[..|a|] == c[..|b|][..|a|];
  }

  /** A path with one more component below `p` that lies under `c` puts `p` under `c` too. */
  lemma ExtendedPrefix(p: Path, b: string, q: Path, c: Path)
    ensures IsPrefix(p + [b], q) && IsPrefix(q, c) ==> IsPrefix(p, c)
  {
    if IsPrefix(p + [b], q) && IsPrefix(q, c) {
      assert (p + [b])[..|p|] == p;
      PrefixTrans(p, p + [b], q);
      PrefixTrans(p, q, c);
    }
  }

  /** The platform `is_system_drive` branches on; on Windows, with the value of `%SYSTEMDRIVE%`. */
  datatype Platform = Posix | Windows(systemDrive: string)

  /** `s` starts with a drive: one character and a colon. */
  predicate HasDrive(s: string) {
    |s| >= 2 && s[1] == ':'
  }

  /** `os.path.splitdrive(s)[0]` on Windows: the drive `s` starts with, or "" without one. */
  function DriveOf(s: string): (r: string)
    ensures HasDrive(s) ==> r == s[..2]
    ensures !HasDrive(s) ==> r == ""
  {
    if HasDrive(s) then s[..2] else ""
  }

  /** The first component of a path, where a Windows path keeps its drive. */
  function Head(p: Path): string {
    if |p| == 0 then "" else p[0]
  }

  /**
   * `is_system_drive`: on Windows the drive of the path is that of
   * `%SYSTEMDRIVE%`, case aside; elsewhere `realpath(path) == '/'`, the
   * root, which has no components.
   */
  predicate IsSystemDrive(platform: Platform, p: Path) {
    match platform
    case Posix => p == []
    case Windows(sd) => Upper(DriveOf(Head(p))) == Upper(DriveOf(sd))
  }

  /**
   * What the system-drive check refuses: on POSIX the root alone; on
   * Windows, with a drive in `%SYSTEMDRIVE%`, every path on that drive
   * letter in either case and nothing else; with none, every path that
   * names no drive.
   */
  lemma SystemDriveMeans(platform: Platform, p: Path)
    ensures platform.Posix? ==> (IsSystemDrive(platform, p) <==> p == [])
    ensures platform.Windows? && HasDrive(platform.systemDrive) ==>
      (IsSystemDrive(platform, p) <==> |p| > 0 && HasDrive(p[0]) && UpperChar(p[0][0]) == UpperChar(platform.systemDrive[0]))
    ensures platform.Windows? && !HasDrive(platform.systemDrive) ==>
      (IsSystemDrive(platform, p) <==> |p| == 0 || !HasDrive(p[0]))
  {
    if platform.Windows? {
      var a, b := Upper(DriveOf(Head(p))), Upper(DriveOf(platform.systemDrive));
      if |p| > 0 && HasDrive(p[0]) && HasDrive(platform.systemDrive) {
        assert a == [UpperChar(p[0][0]), UpperChar(':')];
        assert b == [UpperChar(platform.systemDrive[0]), UpperChar(':')];
      }
    }
  }

  /** With `%SYSTEMDRIVE%` = "C:", a file on "c:" is refused and one on "D:" is not. */
  lemma SystemDriveOnWindows()
    ensures IsSystemDrive(Windows("C:"), ["c:", "Users", "notes.txt"])
    ensures !IsSystemDrive(Windows("C:"), ["D:", "notes.txt"])
    ensures !IsSystemDrive(Posix, ["c:", "Users", "notes.txt"])
  {
    SystemDriveMeans(Windows("C:"), ["c:", "Users", "notes.txt"]);
    SystemDriveMeans(Windows("C:"), ["D:", "notes.txt"]);
  }

  /** `os.walk` below a directory, as paths relative to it, in the order it yields them. */
  type Walk = Path -> seq<Path>

  /** The files one target contributes: itself, the files `os.walk` finds under it, or nothing. */
  function FilesOf(fs: Fs, t: Path, walk: Walk): (r: seq<Path>)
    ensures forall j :: 0 <= j < |r| ==> IsPrefix(t, r[j])
    ensures t in fs.files ==> r == [t]
    ensures t !in fs.files && t !in fs.dirs ==> r == []
  {
    if t in fs.files then [t]
    else if t in fs.dirs then seq(|walk(t)|, j requires 0 <= j < |walk(t)| => t + walk(t)[j])
    else []
  }

  /** `files_to_move`. */
  function FilesToMove(fs: Fs, ts: seq<Path>, walk: Walk): (r: seq<Path>)
    ensures forall j :: 0 <= j < |r| ==> UnderSome(ts, r[j])
  {
    if |ts| == 0 then []
    else
      var r := FilesToMove(fs, ts[..|ts| - 1], walk) + FilesOf(fs, ts[|ts| - 1], walk);
      assert forall j :: 0 <= j < |r| ==> UnderSome(ts, r[j]) by {
        forall j | 0 <= j < |r| ensures UnderSome(ts, r[j]) {
          if j < |FilesToMove(fs, ts[..|ts| - 1], walk)| {
            var i :| 0 <= i < |ts| - 1 && IsPrefix(ts[..|ts| - 1][i], r[j]);
            assert ts[i] == ts[..|ts| - 1][i];
          } else {
            assert IsPrefix(ts[|ts| - 1], r[j]);
          }
        }
      }
      r
  }

  /** `f` lies at or below one of the targets. */
  predicate UnderSome(ts: seq<Path>, f: Path) {
    exists i :: 0 <= i < |ts| && IsPrefix(ts[i], f)
  }

  /** Every selected file lies at or below the common path of the targets. */
  lemma UnderCommon(ts: seq<Path>, f: Path)
    requires UnderSome(ts, f)
    ensures |ts| > 0 && IsPrefix(CommonPath(ts), f)
  {
    var i :| 0 <= i < |ts| && IsPrefix(ts[i], f);
    PrefixTrans(CommonPath(ts), ts[i], f);
  }

  /** Where `wipe_target` stages `f`: `temp` joined with `f` relative to the common path. */
  function DestFor(temp: Path, ts: seq<Path>, f: Path): (d: Dest)
    requires UnderSome(ts, f)
    ensures IsPrefix(temp, d.path) && IsPrefix(temp, d.dir)
  {
    UnderCommon(ts, f);
    JoinDest(temp, RelPath(f, CommonPath(ts)))
  }

  function Dests(temp: Path, ts: seq<Path>, files: seq<Path>): (ds: seq<Dest>)
    requires forall j :: 0 <= j < |files| ==> UnderSome(ts, files[j])
    ensures |ds| == |files| && forall j :: 0 <= j < |files| ==> ds[j] == DestFor(temp, ts, files[j])
  {
    seq(|files|, j requires 0 <= j < |files| => DestFor(temp, ts, files[j]))
  }

  /** What the staging loop of `wipe_target` leaves. */
  function StageAll(fs: Fs, ts: seq<Path>, walk: Walk, temp: Path, interrupt: Interrupts): Staged {
    var files := FilesToMove(fs, ts, walk);
    StageFrom(fs, files, Dests(temp, ts, files), 0, interrupt, [])
  }

  /** `StageAll` once the selected files are known. */
  lemma StageAllOf(fs: Fs, ts: seq<Path>, walk: Walk, temp: Path, interrupt: Interrupts, files: seq<Path>)
    requires files == FilesToMove(fs, ts, walk)
    ensures StageAll(fs, ts, walk, temp, interrupt) == StageFrom(fs, files, Dests(temp, ts, files), 0, interrupt, [])
  {
  }

  /**
   * `os.path.commonpath` finds a common path: always on POSIX, and on
   * Windows only when every target names the same drive, letters compared
   * without case. Otherwise it raises `ValueError`, once for every file.
   */
  predicate OneDrive(platform: Platform, ts: seq<Path>) {
    match platform
    case Posix => true
    case Windows(_) => forall i :: 0 < i < |ts| ==> Upper(DriveOf(Head(ts[i]))) == Upper(DriveOf(Head(ts[0])))
  }

  /** Some stop request comes before the `n`-th file. */
  predicate StopsBefore(interrupt: Interrupts, n: nat) {
    exists i :: 0 <= i < n && interrupt(i)
  }

  /** A flag read at `i` that sees no stop extends a stop-free prefix by one file. */
  lemma NoStopYet(interrupt: Interrupts, i: nat)
    requires !StopsBefore(interrupt, i) && !interrupt(i)
    ensures !StopsBefore(interrupt, i + 1)
  {
    forall j | 0 <= j < i + 1 ensures !interrupt(j) {
      if j < i {
        assert !(0 <= j < i && interrupt(j));
      }
    }
  }

  /**
   * What the move loop of `wipe_target` leaves on a platform: `StageAll`
   * when a common path exists; otherwise every move fails in the `try`
   * before touching the disk, and only the stop check still takes effect.
   */
  function WipeOutcome(platform: Platform, fs: Fs, ts: seq<Path>, walk: Walk, temp: Path, interrupt: Interrupts): Staged {
    if OneDrive(platform, ts) then StageAll(fs, ts, walk, temp, interrupt)
    else Staged(fs, [], StopsBefore(interrupt, |FilesToMove(fs, ts, walk)|))
  }

  /** With a common path the outcome is `StageAll`. */
  lemma CommonOutcome(platform: Platform, fs: Fs, ts: seq<Path>, walk: Walk, temp: Path, interrupt: Interrupts)
    requires OneDrive(platform, ts)
    ensures WipeOutcome(platform, fs, ts, walk, temp, interrupt) == StageAll(fs, ts, walk, temp, interrupt)
  {
  }

  /** Without a common path the outcome is the untouched file system, stopped or not. */
  lemma NoCommonOutcome(platform: Platform, fs: Fs, ts: seq<Path>, walk: Walk, temp: Path, interrupt: Interrupts, stopped: bool)
    requires !OneDrive(platform, ts)
    requires stopped <==> StopsBefore(interrupt, |FilesToMove(fs, ts, walk)|)
    ensures WipeOutcome(platform, fs, ts, walk, temp, interrupt) == Staged(fs, [], stopped)
  {
  }

  /**
   * Targets on two different Windows drives: the wipe moves nothing and
   * records nothing, so the files stay where they are and `undo` has
   * nothing to bring back.
   */
  lemma DifferentDrivesStageNothing(sd: string, fs: Fs, ts: seq<Path>, walk: Walk, temp: Path, interrupt: Interrupts)
    requires |ts| >= 2 && HasDrive(Head(ts[0])) && HasDrive(Head(ts[1]))
    requires Upper(Head(ts[0])[..2]) != Upper(Head(ts[1])[..2])
    ensures !OneDrive(Windows(sd), ts)
    ensures var s := WipeOutcome(Windows(sd), fs, ts, walk, temp, interrupt);
      s.fs == fs && s.stack == [] && UndoEach(s.fs, Reversed(s.stack)) == fs
  {
    assert DriveOf(Head(ts[1])) == Head(ts[1])[..2];
    assert DriveOf(Head(ts[0])) == Head(ts[0])[..2];
  }

  /**
   * Concretely: with `%SYSTEMDRIVE%` at "C:", wiping `D:\data` together
   * with `E:\photos` passes the system-drive check and stages nothing,
   * while the same targets on POSIX are staged.
   */
  lemma TwoDrivesExample(fs: Fs, walk: Walk, temp: Path, interrupt: Interrupts)
    ensures var ts := [["D:", "data"], ["E:", "photos"]];
      (forall i :: 0 <= i < |ts| ==> !IsSystemDrive(Windows("C:"), ts[i])) &&
      WipeOutcome(Windows("C:"), fs, ts, walk, temp, interrupt).stack == [] &&
      WipeOutcome(Posix, fs, ts, walk, temp, interrupt) == StageAll(fs, ts, walk, temp, interrupt)
  {
    var ts := [["D:", "data"], ["E:", "photos"]];
    assert Upper("D:")[0] == 'D' && Upper("E:")[0] == 'E' && Upper("C:")[0] == 'C';
    assert Head(ts[0])[..2] == "D:" && Head(ts[1])[..2] == "E:";
    DifferentDrivesStageNothing("C:", fs, ts, walk, temp, interrupt);
    assert DriveOf("C:") == "C:";
  }

  /**
   * Two different files strictly below the common path get different
   * staging paths under `temp`.
   */
  lemma DestsApart(temp: Path, ts: seq<Path>, f: Path, g: Path)
    requires UnderSome(ts, f) && UnderSome(ts, g) && f != g
    requires |ts| > 0 && |f| > |CommonPath(ts)| && |g| > |CommonPath(ts)|
    ensures DestFor(temp, ts, f).path != DestFor(temp, ts, g).path
  {
    UnderCommon(ts, f);
    UnderCommon(ts, g);
    var c := CommonPath(ts);
    var tf, tg := f[|c|..], g[|c|..];
    assert f == c + tf && g == c + tg;
    assert (temp + tf)[|temp|..] == tf && (temp + tg)[|temp|..] == tg;
  }

  // ----- a single-file target -----

  /**
   * What a single file target needs for its staging not to fail: `f` is a
   * file and no directory, the staging directory `temp` exists, neither
   * lies at or below the other, no ancestor of either is a file, and the
   * staging directory holds nothing of `f`'s name.
   */
  predicate SingleReady(fs: Fs, f: Path, temp: Path) {
    |f| > 0 && f in fs.files && f !in fs.dirs && temp in fs.dirs && temp !in fs.files &&
    !IsPrefix(temp, f) && !IsPrefix(f, temp) &&
    (forall k :: 0 <= k < |f| ==> f[..k] !in fs.files) &&
    (forall k :: 0 <= k < |temp| ==> temp[..k] !in fs.files) &&
    !Exists(fs, temp + [f[|f| - 1]])
  }

  /** For a single target the common path is the file itself, and it is staged onto `temp`. */
  lemma SingleDest(fs: Fs, f: Path, temp: Path, walk: Walk)
    requires f in fs.files
    ensures FilesToMove(fs, [f], walk) == [f]
    ensures UnderSome([f], f) && Dests(temp, [f], [f]) == [Dest(temp, temp)]
  {
    assert [f][..0] == [];
    assert IsPrefix([f][0], f);
  }

  /** The file system after `f` was moved into the directory `temp`. */
  function MovedInto(fs: Fs, f: Path, temp: Path, dirs: set<Path>): Fs
    requires |f| > 0 && f in fs.files
  {
    Fs(fs.files - {f} + map[temp + [f[|f| - 1]] := fs.files[f]], dirs)
  }

  /** Moving a file into an existing directory that has no entry of its name. */
  lemma MoveIntoDir(fs: Fs, f: Path, temp: Path)
    requires |f| > 0 && f in fs.files && temp in fs.dirs && !Exists(fs, temp + [f[|f| - 1]])
    ensures Move(fs, f, temp) == Some(MovedInto(fs, f, temp, fs.dirs))
  {
    assert Dirname(temp + [f[|f| - 1]]) == temp;
  }

  /** Staging the single file onto `temp` moves it into that directory. */
  lemma SingleMoved(fs: Fs, f: Path, temp: Path) returns (dirs: set<Path>)
    requires SingleReady(fs, f, temp)
    ensures temp in dirs && f !in dirs
    ensures StageOne(fs, f, Dest(temp, temp)) == (MovedInto(fs, f, temp, dirs), true)
  {
    assert temp[..|temp|] == temp;
    var fs1 := MakeDirs(fs, temp).value;
    PrefixOf(f, temp);
    PrefixOf(temp + [f[|f| - 1]], temp);
    MoveIntoDir(fs1, f, temp);
    dirs := fs1.dirs;
    StageOneMoves(fs, f, Dest(temp, temp), fs1, MovedInto(fs, f, temp, dirs));
  }

  /** As written, a single file target is staged onto the staging directory itself. */
  lemma SingleStaged(platform: Platform, fs: Fs, f: Path, temp: Path, walk: Walk, interrupt: Interrupts)
    requires f in fs.files
    ensures WipeOutcome(platform, fs, [f], walk, temp, interrupt) == StageFrom(fs, [f], [Dest(temp, temp)], 0, interrupt, [])
  {
    SingleDest(fs, f, temp, walk);
    StageAllOf(fs, [f], walk, temp, interrupt, [f]);
  }

  /** Before the undo's move: the original's parent is made, the staging directory is still there. */
  lemma SingleParentMade(fs: Fs, f: Path, temp: Path, dirs: set<Path>) returns (fs3: Fs)
    requires SingleReady(fs, f, temp) && temp in dirs && f !in dirs
    ensures MakeDirs(MovedInto(fs, f, temp, dirs), Dirname(f)) == Some(fs3)
    ensures fs3.files == MovedInto(fs, f, temp, dirs).files && temp in fs3.dirs && f !in fs3.dirs
  {
    var b := f[|f| - 1];
    var fs2 := MovedInto(fs, f, temp, dirs);
    var d := Dirname(f);
    PrefixOf(temp, f);
    forall k | 0 <= k <= |d| ensures d[..k] !in fs2.files {
      assert d[..k] == f[..k];
      assert IsPrefix(f[..k], f);
      ExtendedPrefix(temp, b, f[..k], f);
    }
    fs3 := MakeDirs(fs2, d).value;
    PrefixOf(f, d);
  }

  /** Renaming the tree at `temp` to `f` carries `temp`'s entry `b` to `f`'s, and leaves neither `f` nor `temp`. */
  lemma TreeRenamed(fs: Fs, temp: Path, f: Path, b: string)
    requires temp !in fs.files && f !in fs.files && temp + [b] in fs.files && !IsPrefix(f, temp)
    ensures var back := MoveTree(fs, temp, f);
      f !in back.files && f + [b] in back.files && back.files[f + [b]] == fs.files[temp + [b]] &&
      !Exists(back, temp)
  {
    var back := MoveTree(fs, temp, f);
    MoveTreeCarries(fs, temp, f, temp + [b]);
    assert Reroot(temp + [b], temp, f) == f + [b];
    forall p | p in fs.files && IsPrefix(temp, p) ensures Reroot(p, temp, f) != f {
      assert p[..|p|] == p;
      assert |p| > |temp|;
    }
    PrefixOf(f, temp);
  }

  /** Undoing that entry renames the staging directory to the file's path. */
  lemma SingleUndone(fs: Fs, f: Path, temp: Path, dirs: set<Path>)
    requires SingleReady(fs, f, temp) && temp in dirs && f !in dirs
    ensures var back := UndoOne(MovedInto(fs, f, temp, dirs), Entry(f, temp));
      f !in back.files && f + [f[|f| - 1]] in back.files && back.files[f + [f[|f| - 1]]] == fs.files[f] &&
      !Exists(back, temp)
  {
    var fs3 := SingleParentMade(fs, f, temp, dirs);
    PrefixOf(f, temp);
    PrefixOf(temp, f);
    assert f !in fs3.files && temp !in fs3.files;
    assert Move(fs3, temp, f) == Some(MoveTree(fs3, temp, f));
    UndoOneMoves(MovedInto(fs, f, temp, dirs), Entry(f, temp), fs3, MoveTree(fs3, temp, f));
    TreeRenamed(fs3, temp, f, f[|f| - 1]);
  }

  /**
   * Staging a single file and undoing it, as written: the entry records the
   * staging directory, so undo renames the whole staging directory to the
   * file's path, and the file ends up one level down, under its own name.
   */
  lemma SingleFileMisplaced(platform: Platform, fs: Fs, f: Path, temp: Path, walk: Walk, interrupt: Interrupts)
    requires SingleReady(fs, f, temp) && !interrupt(0)
    ensures var s := WipeOutcome(platform, fs, [f], walk, temp, interrupt);
      var back := UndoEach(s.fs, Reversed(s.stack));
      s.stack == [Entry(f, temp)] &&
      f !in back.files && f + [f[|f| - 1]] in back.files && back.files[f + [f[|f| - 1]]] == fs.files[f] &&
      !Exists(back, temp)
  {
    SingleStaged(platform, fs, f, temp, walk, interrupt);
    StageSingle(fs, f, Dest(temp, temp), interrupt);
    var dirs := SingleMoved(fs, f, temp);
    SingleUndone(fs, f, temp, dirs);
    var fs2 := MovedInto(fs, f, temp, dirs);
    assert Reversed([Entry(f, temp)]) == [Entry(f, temp)];
    ReplaySingle(UndoOne, fs2, Entry(f, temp));
  }

  /** The staging destination as evidently intended: a target that is itself the common path keeps its name. */
  function CorrectedJoin(temp: Path, rel: Rel, name: string): (d: Dest)
    ensures IsPrefix(temp, d.path) && (rel != Below([]) ==> |d.path| > |temp|)
  {
    match rel
    case Here => Dest(temp, temp + [name])
    case Below(t) => JoinDest(temp, Below(t))
  }

  /** `DestFor` with the corrected join. */
  function CorrectedDestFor(temp: Path, ts: seq<Path>, f: Path): Dest
    requires UnderSome(ts, f) && |f| > 0
  {
    UnderCommon(ts, f);
    CorrectedJoin(temp, RelPath(f, CommonPath(ts)), f[|f| - 1])
  }

  /** The corrected destination of a single file target, and the conditions for nothing to fail. */
  lemma SingleCorrectedReady(fs: Fs, f: Path, temp: Path)
    requires SingleReady(fs, f, temp)
    ensures UnderSome([f], f) && CorrectedDestFor(temp, [f], f) == Dest(temp, temp + [f[|f| - 1]])
    ensures Ready(fs, [f], [Dest(temp, temp + [f[|f| - 1]])])
  {
    var b := f[|f| - 1];
    assert IsPrefix([f][0], f);
    var dest := Dest(temp, temp + [b]);
    var dps := Paths([dest]);
    assert dps == [temp + [b]];
    PrefixOf(temp, f);
    PrefixOf(f, temp);
    forall k | 0 <= k < |f| ensures Clear(fs, [f], dps, f[..k]) {
      assert IsPrefix(f[..k], f);
      ExtendedPrefix(temp, b, f[..k], f);
    }
    forall k | 0 <= k < |temp + [b]| ensures Clear(fs, [f], dps, (temp + [b])[..k]) {
      assert (temp + [b])[..k] == temp[..k];
    }
    assert f != temp + [b];
  }

  /** With the corrected destination, staging a single file and undoing it restores it. */
  lemma SingleFileRestored(fs: Fs, f: Path, temp: Path, interrupt: Interrupts)
    requires SingleReady(fs, f, temp) && !interrupt(0)
    ensures UnderSome([f], f)
    ensures var s := StageFrom(fs, [f], [CorrectedDestFor(temp, [f], f)], 0, interrupt, []);
      s.stack == [Entry(f, temp + [f[|f| - 1]])] && UndoEach(s.fs, Reversed(s.stack)).files == fs.files
  {
    SingleCorrectedReady(fs, f, temp);
    RoundTrip(fs, [f], [Dest(temp, temp + [f[|f| - 1]])], interrupt);
  }

  // ----- the engine's own selection -----

  /** No file lies on the path of another: a file is never an ancestor of a file. */
  predicate NoFileAbove(fs: Fs) {
    forall p, k :: p in fs.files && 0 <= k < |p| ==> p[..k] !in fs.files
  }

  /**
   * `temp` is a fresh staging directory, as `mkdtemp` makes it: no file at
   * or above it, no file and no other directory below it.
   */
  predicate FreshTemp(fs: Fs, temp: Path) {
    (forall k :: 0 <= k <= |temp| ==> temp[..k] !in fs.files) &&
    (forall p :: p in fs.files ==> !IsPrefix(temp, p)) &&
    (forall p :: p in fs.dirs && IsPrefix(temp, p) ==> p == temp)
  }

  /**
   * The selected files can be staged one by one: each is a file, they are
   * pairwise different, and each lies strictly below the common path.
   */
  predicate Stageable(fs: Fs, ts: seq<Path>, files: seq<Path>) {
    |ts| > 0 && Distinct(files) &&
    (forall j :: 0 <= j < |files| ==> UnderSome(ts, files[j])) &&
    forall j :: 0 <= j < |files| ==> files[j] in fs.files && files[j] !in fs.dirs && |files[j]| > |CommonPath(ts)|
  }

  /** A file strictly below the common path is staged at `temp` plus its tail, in its tail's directory. */
  lemma DestShape(temp: Path, ts: seq<Path>, f: Path)
    requires UnderSome(ts, f) && |f| > |CommonPath(ts)|
    ensures var c := CommonPath(ts); var t := f[|c|..];
      |t| > 0 && f == c + t &&
      DestFor(temp, ts, f) == Dest(temp + Dirname(t), temp + t) && Dirname(temp + t) == temp + Dirname(t)
  {
    UnderCommon(ts, f);
    var c := CommonPath(ts);
    var t := f[|c|..];
    assert f == c + t;
    assert (temp + t)[..|temp + t| - 1] == temp + t[..|t| - 1];
  }

  /** When a staged path lies on the path of another, so does its file on the other's file. */
  lemma DestAbove(temp: Path, ts: seq<Path>, f: Path, g: Path, k: nat)
    requires UnderSome(ts, f) && |f| > |CommonPath(ts)| && UnderSome(ts, g) && |g| > |CommonPath(ts)|
    requires k < |DestFor(temp, ts, g).path|
    ensures DestFor(temp, ts, f).path == DestFor(temp, ts, g).path[..k] ==> |f| < |g| && f == g[..|f|]
  {
    DestShape(temp, ts, f);
    DestShape(temp, ts, g);
    var c := CommonPath(ts);
    SharedHead(temp, c, f[|c|..], g[|c|..], k);
  }

  /**
   * Two tails below `a` where one lies on the way to the other lie the same
   * way below `c`.
   */
  lemma SharedHead(a: Path, c: Path, x: Path, y: Path, k: nat)
    requires k < |a + y|
    ensures a + x == (a + y)[..k] ==> |c + x| < |c + y| && c + x == (c + y)[..|c + x|]
  {
    if a + x == (a + y)[..k] {
      assert (a + x)[|a|..] == x;
      assert (a + y)[..k][|a|..] == y[..|x|];
      assert (c + y)[..|c + x|] == c + y[..|x|];
    }
  }

  /** A path on the way to a staged path is on the way to `temp`, or strictly below it. */
  lemma AboveDest(temp: Path, ts: seq<Path>, f: Path, k: nat)
    requires UnderSome(ts, f) && |f| > |CommonPath(ts)| && k < |DestFor(temp, ts, f).path|
    ensures var q := DestFor(temp, ts, f).path[..k];
      (k <= |temp| && q == temp[..k]) || (k > |temp| && IsPrefix(temp, q) && q != temp)
  {
    DestShape(temp, ts, f);
  }

  /** A staged path lies strictly below `temp`, so a fresh `temp` leaves it free, and it is no file. */
  lemma DestFree(fs: Fs, ts: seq<Path>, files: seq<Path>, temp: Path, i: nat)
    requires FreshTemp(fs, temp) && Stageable(fs, ts, files) && i < |files|
    ensures var d := DestFor(temp, ts, files[i]);
      d.path !in fs.files && d.path !in fs.dirs && |d.path| > 0 && d.dir == Dirname(d.path) &&
      d.path !in files
  {
    DestShape(temp, ts, files[i]);
  }

  /** A path on the way to a path outside `temp` is outside `temp` too. */
  lemma AboveOutside(temp: Path, f: Path, k: nat)
    requires k <= |f| && !IsPrefix(temp, f)
    ensures !IsPrefix(temp, f[..k])
  {
    if |temp| <= k {
      assert f[..k][..|temp|] == f[..|temp|];
    }
  }

  /** In a tree-shaped file system a file does not lie on the path of another file. */
  lemma FileNotAbove(fs: Fs, f: Path, g: Path)
    requires NoFileAbove(fs) && f in fs.files && g in fs.files
    ensures !(|f| < |g| && f == g[..|f|])
  {
    if |f| < |g| {
      assert g[..|f|] !in fs.files;
    }
  }

  /** No path on the way to a selected file is a file or a staged path. */
  lemma SourceAboveClear(fs: Fs, ts: seq<Path>, files: seq<Path>, temp: Path, i: nat, k: nat)
    requires Stageable(fs, ts, files) && i < |files| && k < |files[i]|
    requires files[i][..k] !in fs.files && !IsPrefix(temp, files[i])
    ensures Clear(fs, files, Paths(Dests(temp, ts, files)), files[i][..k])
  {
    AboveOutside(temp, files[i], k);
    forall j | 0 <= j < |files| ensures DestFor(temp, ts, files[j]).path != files[i][..k] {
      DestShape(temp, ts, files[j]);
    }
  }

  /** No path on the way to a staged path is a file, a selected file or another staged path. */
  lemma DestAboveClear(fs: Fs, ts: seq<Path>, files: seq<Path>, temp: Path, i: nat, k: nat)
    requires NoFileAbove(fs) && FreshTemp(fs, temp) && Stageable(fs, ts, files)
    requires i < |files| && k < |DestFor(temp, ts, files[i]).path|
    ensures Clear(fs, files, Paths(Dests(temp, ts, files)), DestFor(temp, ts, files[i]).path[..k])
  {
    var q := DestFor(temp, ts, files[i]).path[..k];
    AboveDest(temp, ts, files[i], k);
    assert q !in fs.files;
    forall j | 0 <= j < |files| ensures DestFor(temp, ts, files[j]).path != q {
      DestAbove(temp, ts, files[j], files[i], k);
      FileNotAbove(fs, files[j], files[i]);
    }
  }

  /**
   * With a tree-shaped file system, a fresh staging directory and a
   * selection that can be staged, the engine's own destinations meet every
   * condition for staging then undoing to lose nothing.
   */
  lemma EngineReady(fs: Fs, ts: seq<Path>, files: seq<Path>, temp: Path)
    requires NoFileAbove(fs) && FreshTemp(fs, temp) && Stageable(fs, ts, files)
    ensures Ready(fs, files, Dests(temp, ts, files))
  {
    DestsFree(fs, ts, files, temp);
    DestsDistinct(fs, ts, files, temp);
    SourcesClear(fs, ts, files, temp);
    DestsClear(fs, ts, files, temp);
  }

  /** Each destination is free, has its parent as directory, and is no source. */
  lemma DestsFree(fs: Fs, ts: seq<Path>, files: seq<Path>, temp: Path)
    requires FreshTemp(fs, temp) && Stageable(fs, ts, files)
    ensures var ds := Dests(temp, ts, files); var dps := Paths(ds);
      (forall i :: 0 <= i < |files| ==> files[i] !in dps) &&
      (forall i :: 0 <= i < |dps| ==> dps[i] !in fs.files && dps[i] !in fs.dirs && |dps[i]| > 0) &&
      (forall i :: 0 <= i < |ds| ==> ds[i].dir == Dirname(ds[i].path))
  {
    var ds := Dests(temp, ts, files);
    var dps := Paths(ds);
    forall j | 0 <= j < |files|
      ensures dps[j] !in files && dps[j] !in fs.files && dps[j] !in fs.dirs && |dps[j]| > 0
      ensures ds[j].dir == Dirname(ds[j].path)
    {
      DestFree(fs, ts, files, temp, j);
    }
    forall i | 0 <= i < |files| ensures files[i] !in dps {
      forall j | 0 <= j < |dps| ensures dps[j] != files[i] {
        assert dps[j] !in files;
      }
    }
  }

  /** Different selected files get different destinations. */
  lemma DestsDistinct(fs: Fs, ts: seq<Path>, files: seq<Path>, temp: Path)
    requires Stageable(fs, ts, files)
    ensures Distinct(Paths(Dests(temp, ts, files)))
  {
    var dps := Paths(Dests(temp, ts, files));
    forall i, j | 0 <= i < j < |dps| ensures dps[i] != dps[j] {
      DestsApart(temp, ts, files[i], files[j]);
    }
  }

  /** No ancestor of a source is a file, a source or a destination. */
  lemma SourcesClear(fs: Fs, ts: seq<Path>, files: seq<Path>, temp: Path)
    requires NoFileAbove(fs) && FreshTemp(fs, temp) && Stageable(fs, ts, files)
    ensures var dps := Paths(Dests(temp, ts, files));
      forall i, k :: 0 <= i < |files| && 0 <= k < |files[i]| ==> Clear(fs, files, dps, files[i][..k])
  {
    var dps := Paths(Dests(temp, ts, files));
    forall i, k | 0 <= i < |files| && 0 <= k < |files[i]| ensures Clear(fs, files, dps, files[i][..k]) {
      assert files[i] in fs.files;
      SourceAboveClear(fs, ts, files, temp, i, k);
    }
  }

  /** No ancestor of a destination is a file, a source or a destination. */
  lemma DestsClear(fs: Fs, ts: seq<Path>, files: seq<Path>, temp: Path)
    requires NoFileAbove(fs) && FreshTemp(fs, temp) && Stageable(fs, ts, files)
    ensures var dps := Paths(Dests(temp, ts, files));
      forall i, k :: 0 <= i < |dps| && 0 <= k < |dps[i]| ==> Clear(fs, files, dps, dps[i][..k])
  {
    var dps := Paths(Dests(temp, ts, files));
    forall i, k | 0 <= i < |dps| && 0 <= k < |dps[i]| ensures Clear(fs, files, dps, dps[i][..k]) {
      DestAboveClear(fs, ts, files, temp, i, k);
    }
  }

  /** Purging a staging directory with no file under it keeps every file. */
  lemma PurgeKeepsOutside(fs: Fs, temp: Path, newTemp: Option<Path>)
    requires forall p :: p in fs.files ==> !IsPrefix(temp, p)
    ensures Purge(fs, temp, newTemp).fs.files == fs.files
  {
    var r := Purge(fs, temp, newTemp);
    assert r.fs.files.Keys == fs.files.Keys;
  }

  /**
   * `wipe_target` then `undo` on the engine's own selection: without a
   * stop, when a common path exists every selected file is staged and
   * recorded, and otherwise nothing is; either way replaying the stack
   * newest first brings back exactly the original files, and the purge of
   * the staging directory that ends `undo` keeps them all.
   */
  lemma EngineRoundTrip(platform: Platform, fs: Fs, ts: seq<Path>, walk: Walk, temp: Path, interrupt: Interrupts, newTemp: Option<Path>)
    requires NoFileAbove(fs) && FreshTemp(fs, temp) && Stageable(fs, ts, FilesToMove(fs, ts, walk))
    requires forall i :: 0 <= i < |FilesToMove(fs, ts, walk)| ==> !interrupt(i)
    ensures var files := FilesToMove(fs, ts, walk);
      var s := WipeOutcome(platform, fs, ts, walk, temp, interrupt);
      var back := UndoEach(s.fs, Reversed(s.stack));
      !s.stopped && s.stack == (if OneDrive(platform, ts) then Entries(files, Dests(temp, ts, files)) else []) &&
      back.files == fs.files && Purge(back, temp, newTemp).fs.files == fs.files
  {
    var files := FilesToMove(fs, ts, walk);
    if OneDrive(platform, ts) {
      EngineReady(fs, ts, files, temp);
      StageAllOf(fs, ts, walk, temp, interrupt, files);
      RoundTrip(fs, files, Dests(temp, ts, files), interrupt);
      var s := StageAll(fs, ts, walk, temp, interrupt);
      PurgeKeepsOutside(UndoEach(s.fs, Reversed(s.stack)), temp, newTemp);
    } else {
      assert !StopsBefore(interrupt, |files|);
      assert UndoEach(fs, Reversed([])) == fs;
      PurgeKeepsOutside(fs, temp, newTemp);
    }
  }

  // ----- purge -----

  /** The file system and the staging directory after `permanent_delete`. */
  datatype Purged = Purged(fs: Fs, temp: Path)

  /**
   * `permanent_delete`: nothing happens when the staging directory is gone;
   * otherwise it is removed with everything under it, and `mkdtemp` makes a
   * fresh one (`newTemp`), or raises (`None`) and the old name is kept.  A
   * name `mkdtemp` picks has nothing under it, so the new directory is empty.
   */
  function Purge(fs: Fs, temp: Path, newTemp: Option<Path>): (r: Purged)
    ensures !Exists(fs, temp) ==> r == Purged(fs, temp)
    ensures Exists(fs, temp) ==> forall p :: p in r.fs.files ==> !IsPrefix(temp, p)
    ensures forall p :: p in fs.files && !IsPrefix(temp, p) ==> p in r.fs.files && r.fs.files[p] == fs.files[p]
    ensures forall p :: p in r.fs.files ==> p in fs.files
    ensures Exists(fs, temp) && newTemp.Some? ==> r.temp == newTemp.value && r.temp in r.fs.dirs
    ensures Exists(fs, temp) && newTemp.Some? && (forall p :: p in fs.files ==> !IsPrefix(newTemp.value, p)) ==>
              forall p :: p in r.fs.files ==> !IsPrefix(r.temp, p)
  {
    if !Exists(fs, temp) then Purged(fs, temp)
    else
      var gone := RemoveTree(fs, temp);
      match newTemp
      case None => Purged(gone, temp)
      case Some(f) => Purged(Fs(gone.files, gone.dirs + {f}), f)
  }

  // ----- the free-space overwrite -----

  /** `chunk_size`. */
  const CHUNK: nat := 1024 * 1024

  /** How a pass of `_overwrite_drive` ends: all chunks written, stopped, or the write raised. */
  datatype FillEnd = Filled | Halted | NoSpace

  /** A pass's end, what `dummy_file.dat` holds, and how many stop-flag flagReads were made. */
  datatype Written = Written(end: FillEnd, content: seq<Byte>, flagReads: nat)

  /**
   * The chunk loop from offset `i` on: read the flag, then write
   * `min(chunk, total - i)` copies of `b`; the file holds at most `free`
   * bytes, beyond which the write raises.
   */
  function FillFrom(b: Byte, i: nat, total: nat, free: nat, flag: bool, interrupt: Interrupts,
                    flagReads: nat, content: seq<Byte>): Written
    decreases total - i
  {
    if i >= total then Written(Filled, content, flagReads)
    else if flag || interrupt(flagReads) then Written(Halted, content, flagReads + 1)
    else
      var n := Min(CHUNK, total - i);
      if |content| + n > free then Written(NoSpace, content, flagReads + 1)
      else FillFrom(b, i + CHUNK, total, free, flag, interrupt, flagReads + 1, content + Fill(b, n))
  }

  /** With room and no stop, a pass writes exactly `total` copies of `b`. */
  lemma {:induction false} FillWhole(b: Byte, i: nat, total: nat, free: nat, interrupt: Interrupts, flagReads: nat)
    requires i <= total <= free && forall k :: !interrupt(k)
    ensures var w := FillFrom(b, i, total, free, false, interrupt, flagReads, Fill(b, i));
      w.end == Filled && w.content == Fill(b, total)
    decreases total - i
  {
    if i < total {
      var n := Min(CHUNK, total - i);
      assert Fill(b, i) + Fill(b, n) == Fill(b, i + n);
      if n == CHUNK {
        FillWhole(b, i + CHUNK, total, free, interrupt, flagReads + 1);
      } else {
        assert i + n == total;
      }
    }
  }

  /** A pass never writes more than `free` bytes; without a stop it ends filled only if `total` fits. */
  lemma {:induction false} FillBounded(b: Byte, i: nat, total: nat, free: nat, interrupt: Interrupts, flagReads: nat,
                                       content: seq<Byte>)
    requires |content| <= free && |content| == Min(i, total)
    ensures var w := FillFrom(b, i, total, free, false, interrupt, flagReads, content);
      |w.content| <= free && (w.end == Filled ==> |w.content| == total)
    decreases total - i
  {
    if i < total && !interrupt(flagReads) {
      var n := Min(CHUNK, total - i);
      if |content| + n <= free {
        FillBounded(b, i + CHUNK, total, free, interrupt, flagReads + 1, content + Fill(b, n));
      }
    }
  }

  /** Usage figures of the drive: its size and its free space. */
  datatype Usage = Usage(total: nat, free: nat)

  /** What `_overwrite_drive` does: no usage figures, or one pass, or both. */
  datatype DriveRun = NoUsage | OnePass(first: Written) | TwoPasses(first: Written, second: Written)

  /**
   * `_overwrite_drive` as written: zeros, then 0xFF, `total` bytes each, into
   * a file on the drive whose free space is `free`; the second pass's flagReads
   * follow the first's.
   */
  function DriveOverwrite(usage: Option<Usage>, flag: bool, interrupt: Interrupts): DriveRun {
    match usage
    case None => NoUsage
    case Some(u) =>
      var first := FillFrom(0, 0, u.total, u.free, flag, interrupt, 0, []);
      if first.end != Filled then OnePass(first)
      else TwoPasses(first, FillFrom(255, 0, u.total, u.free, flag, interrupt, first.flagReads, []))
  }

  /** `_overwrite_drive` returns True exactly when both passes were filled. */
  predicate DriveOk(run: DriveRun) {
    run.TwoPasses? && run.second.end == Filled
  }

  /**
   * The percentage `_overwrite_drive` reports after the chunk at offset `i`
   * of pass `pass`: the first pass spans [0, 50), the second [50, 100).
   */
  function DriveProgress(pass: nat, i: nat, total: nat): (p: real)
    requires (pass == 1 || pass == 2) && i < total
    ensures 50.0 * (pass - 1) as real <= p < 50.0 * pass as real
  {
    FractionBelowOne(i, total);
    50.0 * (pass - 1) as real + (i as real / total as real) * 50.0
  }

  /** The share `i / total` of a pass done before chunk `i` lies in [0, 1). */
  lemma FractionBelowOne(i: nat, total: nat)
    requires i < total
    ensures 0.0 <= i as real / total as real < 1.0
  {
    var q := i as real / total as real;
    assert q * total as real == i as real;
    assert i as real < total as real;
  }

  /** The reported percentage never falls, within a pass or from the first pass to the second. */
  lemma DriveProgressRises(p1: nat, i1: nat, p2: nat, i2: nat, total: nat)
    requires (p1 == 1 || p1 == 2) && (p2 == 1 || p2 == 2) && i1 < total && i2 < total
    requires p1 < p2 || (p1 == p2 && i1 <= i2)
    ensures DriveProgress(p1, i1, total) <= DriveProgress(p2, i2, total)
  {
    if p1 == p2 {
      assert i1 as real / total as real <= i2 as real / total as real;
    }
  }

  /** A drive whose free space is smaller than its size is never reported overwritten. */
  lemma OverwriteNeedsEmptyDrive(u: Usage, flag: bool, interrupt: Interrupts)
    requires u.free < u.total
    ensures !DriveOk(DriveOverwrite(Some(u), flag, interrupt))
  {
    if !flag {
      FillBounded(0, 0, u.total, u.free, interrupt, 0, []);
    }
  }

  /** A 1 GiB drive with one byte in use. */
  lemma OverwriteFailsOnUsedDrive(interrupt: Interrupts)
    ensures !DriveOk(DriveOverwrite(Some(Usage(1024 * CHUNK, 1024 * CHUNK - 1)), false, interrupt))
  {
    OverwriteNeedsEmptyDrive(Usage(1024 * CHUNK, 1024 * CHUNK - 1), false, interrupt);
  }

  /** As evidently intended: each pass writes as many bytes as the drive has free. */
  function FreeSpaceOverwrite(usage: Option<Usage>, flag: bool, interrupt: Interrupts): DriveRun {
    match usage
    case None => NoUsage
    case Some(u) => DriveOverwrite(Some(Usage(u.free, u.free)), flag, interrupt)
  }

  /** Without a stop, the corrected overwrite succeeds and covers the free space with zeros, then ones. */
  lemma FreeSpaceOverwriteCompletes(u: Usage, interrupt: Interrupts)
    requires forall k :: !interrupt(k)
    ensures var run := FreeSpaceOverwrite(Some(u), false, interrupt);
      DriveOk(run) && run.first.content == Fill(0, u.free) && run.second.content == Fill(255, u.free)
  {
    assert Fill(0, 0) == [] && Fill(255, 0) == [];
    FillWhole(0, 0, u.free, u.free, interrupt, 0);
    var first := FillFrom(0, 0, u.free, u.free, false, interrupt, 0, []);
    FillWhole(255, 0, u.free, u.free, interrupt, first.flagReads);
  }

  /** A raised stop flag ends the first pass before anything is written. */
  lemma StopWritesNothing(usage: Usage, interrupt: Interrupts)
    requires usage.total > 0
    ensures DriveOverwrite(Some(usage), true, interrupt) == OnePass(Written(Halted, [], 1))
  {
  }

  // ----- the countdown -----

  /** `countdown`'s starting value, in seconds. */
  const COUNTDOWN: nat := 30

  /**
   * Whether `final_delete_delay` purges: its 30 ticks and its closing check
   * are flag reads `0` to `30`, and the purge needs all of them to see no stop.
   */
  predicate Purges(flag: bool, interrupt: Interrupts) {
    FirstStop(flag, interrupt, 0, COUNTDOWN + 1) > COUNTDOWN
  }

  /** The purge happens exactly when the flag starts lowered and none of the 31 reads sees a stop. */
  lemma PurgesMeans(flag: bool, interrupt: Interrupts)
    ensures Purges(flag, interrupt) <==> !flag && forall k :: 0 <= k <= COUNTDOWN ==> !interrupt(k)
  {
    var c := FirstStop(flag, interrupt, 0, COUNTDOWN + 1);
    if !flag && forall k :: 0 <= k <= COUNTDOWN ==> !interrupt(k) {
      FirstStopIs(flag, interrupt, 0, COUNTDOWN + 1, COUNTDOWN + 1);
    }
  }

  /** One more read extends the stop position only when the first `n` saw no stop. */
  lemma FirstStopExtend(flag: bool, interrupt: Interrupts, n: nat)
    ensures FirstStop(flag, interrupt, 0, n + 1) ==
      if FirstStop(flag, interrupt, 0, n) < n || flag || interrupt(n) then FirstStop(flag, interrupt, 0, n) else n + 1
  {
    var c := FirstStop(flag, interrupt, 0, n);
    if c < n {
      FirstStopIs(flag, interrupt, 0, n + 1, c);
    } else if flag || interrupt(n) {
      FirstStopIs(flag, interrupt, 0, n + 1, n);
    } else {
      FirstStopIs(flag, interrupt, 0, n + 1, n + 1);
    }
  }

  // ----- the engine -----

  class SecureWipeEngine {
    var stopFlag: bool
    var tempStorage: Path
    var undoStack: seq<Entry>

    /** A new engine over the staging directory `temp` made by `mkdtemp`. */
    constructor (temp: Path)
      ensures !stopFlag && tempStorage == temp && undoStack == []
    {
      stopFlag := false;
      tempStorage := temp;
      undoStack := [];
    }

    /**
     * `wipe_target`: clears the stack and the flag, refuses a system drive
     * among the targets, then stages every selected file under
     * `tempStorage` until a flag read sees a stop.
     */
    method WipeTarget(platform: Platform, fs: Fs, targets: seq<Path>, walk: Walk, interrupt: Interrupts) returns (ok: bool, fs': Fs)
      modifies this`stopFlag, this`undoStack
      ensures ok <==> forall i :: 0 <= i < |targets| ==> !IsSystemDrive(platform, targets[i])
      ensures !ok ==> fs' == fs && undoStack == [] && !stopFlag
      ensures ok ==> Staged(fs', undoStack, stopFlag) == WipeOutcome(platform, fs, targets, walk, tempStorage, interrupt)
    {
      undoStack := [];
      stopFlag := false;
      fs' := fs;
      for i := 0 to |targets|
        invariant forall j :: 0 <= j < i ==> !IsSystemDrive(platform, targets[j])
      {
        if IsSystemDrive(platform, targets[i]) {
          return false, fs;
        }
      }
      var files := CollectFiles(fs, targets, walk);
      fs' := MoveFiles(platform, fs, targets, files, walk, interrupt);
      ok := true;
    }

    /**
     * The move loop of `wipe_target`: reads the flag before each file, stops
     * at a stop, and otherwise moves the file to its place under
     * `tempStorage`, recording it when the move succeeds.
     */
    method MoveFiles(platform: Platform, fs: Fs, targets: seq<Path>, files: seq<Path>, walk: Walk, interrupt: Interrupts)
      returns (fs': Fs)
      requires files == FilesToMove(fs, targets, walk) && undoStack == [] && !stopFlag
      modifies this`stopFlag, this`undoStack
      ensures Staged(fs', undoStack, stopFlag) == WipeOutcome(platform, fs, targets, walk, tempStorage, interrupt)
    {
      fs' := fs;
      ghost var dests := Dests(tempStorage, targets, files);
      var common := OneDrive(platform, targets);
      var i := 0;
      while i < |files|
        invariant i <= |files| && !stopFlag
        invariant common ==> StageFrom(fs', files, dests, i, interrupt, undoStack) == StageAll(fs, targets, walk, tempStorage, interrupt)
        invariant !common ==> fs' == fs && undoStack == [] && !StopsBefore(interrupt, i)
      {
        var stop := stopFlag || interrupt(i);
        if stop {
          stopFlag := true;
          assert StopsBefore(interrupt, |files|) by { assert interrupt(i); }
          break;
        }
        // Without a common path `commonpath` raises and the move is skipped.
        if common {
          StageFromStep(fs', files, dests, i, interrupt, undoStack);
          var dst := DestFor(tempStorage, targets, files[i]);
          var moved;
          fs', moved := StageOne(fs', files[i], dst).0, StageOne(fs', files[i], dst).1;
          if moved {
            undoStack := undoStack + [Entry(files[i], dst.path)];
          }
        } else {
          NoStopYet(interrupt, i);
        }
        i := i + 1;
      }
      if common {
        CommonOutcome(platform, fs, targets, walk, tempStorage, interrupt);
      } else {
        NoCommonOutcome(platform, fs, targets, walk, tempStorage, interrupt, stopFlag);
      }
    }

    /** The loops that build `files_to_move`, target by target. */
    static method CollectFiles(fs: Fs, targets: seq<Path>, walk: Walk) returns (files: seq<Path>)
      ensures files == FilesToMove(fs, targets, walk)
    {
      files := [];
      for i := 0 to |targets|
        invariant files == FilesToMove(fs, targets[..i], walk)
      {
        assert targets[..i + 1][..i] == targets[..i];
        files := files + FilesOf(fs, targets[i], walk);
      }
      assert targets[..|targets|] == targets;
    }

    /**
     * `undo`: raises the flag, moves the stack's entries back newest first,
     * clears the stack and purges the staging directory.
     */
    method Undo(fs: Fs, newTemp: Option<Path>) returns (fs': Fs)
      modifies this
      ensures stopFlag && undoStack == []
      ensures Purged(fs', tempStorage) == Purge(UndoEach(fs, Reversed(old(undoStack))), old(tempStorage), newTemp)
    {
      stopFlag := true;
      var es := Reversed(undoStack);
      fs' := fs;
      for i := 0 to |es|
        invariant UndoEach(fs', es[i..]) == UndoEach(fs, es)
      {
        assert es[i..][1..] == es[i + 1..];
        fs' := UndoOne(fs', es[i]);
      }
      undoStack := [];
      fs' := PermanentDelete(fs', newTemp);
    }

    /** `permanent_delete`; the undo stack is left alone. */
    method PermanentDelete(fs: Fs, newTemp: Option<Path>) returns (fs': Fs)
      modifies this`tempStorage
      ensures Purged(fs', tempStorage) == Purge(fs, old(tempStorage), newTemp)
    {
      if !Exists(fs, tempStorage) {
        return fs;
      }
      var gone := RemoveTree(fs, tempStorage);
      match newTemp
      case None =>
        fs' := gone;
      case Some(f) =>
        fs' := Fs(gone.files, gone.dirs + {f});
        tempStorage := f;
    }

    /** One pass of `_overwrite_drive`: `dummy_file.dat` filled with `b` in chunks. */
    method FillPass(b: Byte, total: nat, free: nat, interrupt: Interrupts, flagReads0: nat) returns (w: Written)
      modifies this`stopFlag
      ensures w == FillFrom(b, 0, total, free, old(stopFlag), interrupt, flagReads0, [])
      ensures stopFlag <==> old(stopFlag) || w.end == Halted
    {
      var i, flagReads, content := 0, flagReads0, [];
      while i < total
        invariant stopFlag == old(stopFlag)
        invariant FillFrom(b, i, total, free, stopFlag, interrupt, flagReads, content) ==
                  FillFrom(b, 0, total, free, old(stopFlag), interrupt, flagReads0, [])
        decreases total - i
      {
        var stop := stopFlag || interrupt(flagReads);
        flagReads := flagReads + 1;
        if stop {
          stopFlag := true;
          return Written(Halted, content, flagReads);
        }
        var n := Min(CHUNK, total - i);
        if |content| + n > free {
          return Written(NoSpace, content, flagReads);
        }
        content := content + Fill(b, n);
        i := i + CHUNK;
      }
      w := Written(Filled, content, flagReads);
    }

    /** `_overwrite_drive`: `usage` is `None` when `disk_usage` raises. */
    method OverwriteDrive(usage: Option<Usage>, interrupt: Interrupts) returns (ok: bool, ghost run: DriveRun)
      modifies this`stopFlag
      ensures run == DriveOverwrite(usage, old(stopFlag), interrupt) && ok == DriveOk(run)
    {
      if usage.None? {
        return false, NoUsage;
      }
      var u := usage.value;
      var first := FillPass(0, u.total, u.free, interrupt, 0);
      if first.end != Filled {
        return false, OnePass(first);
      }
      var second := FillPass(255, u.total, u.free, interrupt, first.flagReads);
      run := TwoPasses(first, second);
      ok := second.end == Filled;
    }
  }

  /** The window's side of the engine: the countdown, undo and stop buttons. */
  class CleanSlateApp {
    var engine: SecureWipeEngine

    constructor (engine: SecureWipeEngine)
      ensures this.engine == engine
    {
      this.engine := engine;
    }

    /**
     * The ticking loop of `final_delete_delay` and its closing flag check,
     * over a flag that is `flag` when it starts: up to 30 one-second ticks
     * while no flag read sees a stop, then one more read unless a stop was
     * already seen.  `stop` is the flag afterwards.
     */
    static method Countdown(flag: bool, interrupt: Interrupts) returns (ticks: nat, stop: bool)
      ensures ticks == FirstStop(flag, interrupt, 0, COUNTDOWN)
      ensures stop <==> !Purges(flag, interrupt)
    {
      var countdown: nat := COUNTDOWN;
      ticks := 0;
      FirstStopExtend(flag, interrupt, COUNTDOWN);
      while countdown > 0
        invariant countdown + ticks == COUNTDOWN
        invariant FirstStop(flag, interrupt, 0, COUNTDOWN) == ticks + FirstStop(flag, interrupt, ticks, countdown)
      {
        if flag || interrupt(ticks) {
          return ticks, true;
        }
        ticks, countdown := ticks + 1, countdown - 1;
      }
      stop := flag || interrupt(ticks);
    }

    /** `final_delete_delay`: the countdown, then the purge unless a stop was seen. */
    method FinalDeleteDelay(fs: Fs, interrupt: Interrupts, newTemp: Option<Path>) returns (fs': Fs, ticks: nat)
      modifies engine`stopFlag, engine`tempStorage
      ensures ticks == FirstStop(old(engine.stopFlag), interrupt, 0, COUNTDOWN)
      ensures engine.stopFlag == !Purges(old(engine.stopFlag), interrupt)
      ensures Purged(fs', engine.tempStorage) ==
        if Purges(old(engine.stopFlag), interrupt) then Purge(fs, old(engine.tempStorage), newTemp)
        else Purged(fs, old(engine.tempStorage))
    {
      var stop;
      ticks, stop := Countdown(engine.stopFlag, interrupt);
      engine.stopFlag := stop;
      if stop {
        return fs, ticks;
      }
      fs' := engine.PermanentDelete(fs, newTemp);
    }

    /** `undo_wipe`: raise the flag, then undo. */
    method UndoWipe(fs: Fs, newTemp: Option<Path>) returns (fs': Fs)
      modifies engine
      ensures engine.stopFlag && engine.undoStack == []
      ensures Purged(fs', engine.tempStorage) ==
        Purge(UndoEach(fs, Reversed(old(engine.undoStack))), old(engine.tempStorage), newTemp)
    {
      engine.stopFlag := true;
      fs' := engine.Undo(fs, newTemp);
    }

    /** `stop_wipe`: raise the flag, which every later read sees. */
    method StopWipe()
      modifies engine`stopFlag
      ensures engine.stopFlag
    {
      engine.stopFlag := true;
    }
  }
}
