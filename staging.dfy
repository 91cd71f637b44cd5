/**
 * The staged delete of data-wipe-final.py: `SecureWipeEngine.wipe_target`
 * moves the selected files into a private staging directory and records
 * each move on `undo_stack`; `undo` moves them back in reverse order and
 * then purges the staging directory; `permanent_delete` removes it and
 * creates a fresh one.  The file system is a value: the files with their
 * contents and the set of directories, paths being component lists.
 */
module Staging {
  import opened Common

  /** What the engine sees of the file system. */
  datatype Fs = Fs(files: map<Path, seq<Byte>>, dirs: set<Path>)

  predicate IsPrefix(p: Path, q: Path) {
    |p| <= |q| && q[..|p|] == p
  }

  predicate Exists(fs: Fs, p: Path) {
    p in fs.files || p in fs.dirs
  }

  /** `os.makedirs(d, exist_ok=True)`: fails when `d` or one of its ancestors is a file. */
  function MakeDirs(fs: Fs, d: Path): (r: Option<Fs>)
    ensures r.Some? <==> forall k :: 0 <= k <= |d| ==> d[..k] !in fs.files
    ensures r.Some? ==> r.value.files == fs.files && d in r.value.dirs
    ensures r.Some? ==> forall p :: p in r.value.dirs <==> p in fs.dirs || (IsPrefix(p, d))
  {
    if exists k :: 0 <= k <= |d| && d[..k] in fs.files then None
    else
      assert d[..|d|] == d;
      Some(Fs(fs.files, fs.dirs + set k | 0 <= k <= |d| :: d[..k]))
  }

  /** `p` re-rooted from `s` to `r`. */
  function Reroot(p: Path, s: Path, r: Path): (q: Path)
    requires IsPrefix(s, p)
    ensures IsPrefix(r, q) && q[|r|..] == p[|s|..]
  {
    r + p[|s|..]
  }

  /** The paths of `ps` under `s`, re-rooted under `r`. */
  function Rerooted(ps: set<Path>, s: Path, r: Path): set<Path> {
    set p {:trigger Reroot(p, s, r)} | p in ps && IsPrefix(s, p) :: Reroot(p, s, r)
  }

  /** Every file and directory under `s` re-rooted under `r`; everything else kept. */
  function MoveTree(fs: Fs, s: Path, r: Path): Fs {
    var outside := map p | p in fs.files && !IsPrefix(s, p) :: fs.files[p];
    var inside := map q | q in Rerooted(fs.files.Keys, s, r) :: Back(fs.files, s, r, q);
    Fs(outside + inside, (set p | p in fs.dirs && !IsPrefix(s, p)) + Rerooted(fs.dirs, s, r))
  }

  /** The contents of the file a re-rooted path came from. */
  function Back(files: map<Path, seq<Byte>>, s: Path, r: Path, q: Path): seq<Byte>
    requires q in Rerooted(files.Keys, s, r)
  {
    assert s + q[|r|..] in files by {
      var p :| p in files && IsPrefix(s, p) && q == Reroot(p, s, r);
      assert s + q[|r|..] == p;
    }
    files[s + q[|r|..]]
  }

  /** A file under a moved tree keeps its contents at its re-rooted path. */
  lemma MoveTreeCarries(fs: Fs, s: Path, r: Path, p: Path)
    requires p in fs.files && IsPrefix(s, p)
    ensures Reroot(p, s, r) in MoveTree(fs, s, r).files
    ensures MoveTree(fs, s, r).files[Reroot(p, s, r)] == fs.files[p]
  {
    var q := Reroot(p, s, r);
    assert q in Rerooted(fs.files.Keys, s, r);
    assert s + q[|r|..] == p;
  }

  /** Nothing stays at the root of a moved tree, unless it is re-rooted there. */
  lemma MoveTreeVacates(fs: Fs, s: Path, r: Path)
    requires !IsPrefix(r, s)
    ensures s !in MoveTree(fs, s, r).files
  {
  }

  /**
   * `shutil.move(src, dst)`: into `dst` when it is a directory, which must
   * not already hold an entry of that name; a file replaces a file; a
   * directory is renamed with everything under it.  `None` is the
   * exception a missing source, a missing parent or a clash raises.
   */
  function Move(fs: Fs, src: Path, dst: Path): Option<Fs> {
    if |src| == 0 || !Exists(fs, src) then None
    else
      var landing := if dst in fs.dirs then dst + [src[|src| - 1]] else dst;
      if dst in fs.dirs && Exists(fs, landing) then None
      else if |landing| == 0 || Dirname(landing) !in fs.dirs then None
      else if src in fs.files then Some(Fs(fs.files - {src} + map[landing := fs.files[src]], fs.dirs))
      else if IsPrefix(src, landing) || landing in fs.files then None
      else Some(MoveTree(fs, src, landing))
  }

  /** Moving a file that fits renames that one entry. */
  lemma MoveFile(fs: Fs, src: Path, dst: Path)
    requires src in fs.files && |src| > 0 && dst !in fs.dirs && |dst| > 0 && Dirname(dst) in fs.dirs
    ensures Move(fs, src, dst) == Some(Fs(fs.files - {src} + map[dst := fs.files[src]], fs.dirs))
  {
  }

  /** `shutil.rmtree(d, ignore_errors=True)`: `d` and everything under it disappear. */
  function RemoveTree(fs: Fs, d: Path): (r: Fs)
    ensures forall p :: p in r.files <==> p in fs.files && !IsPrefix(d, p)
    ensures forall p :: p in r.files ==> r.files[p] == fs.files[p]
    ensures forall p :: p in r.dirs <==> p in fs.dirs && !IsPrefix(d, p)
  {
    Fs(map p | p in fs.files && !IsPrefix(d, p) :: fs.files[p], set p | p in fs.dirs && !IsPrefix(d, p))
  }

  // ----- one record per staged file -----

  /** An `undo_stack` entry: where the file was, and where the staging put it. */
  datatype Entry = Entry(original: Path, temp: Path)

  /** Where a file goes: the directory `makedirs` creates and the destination of the move. */
  datatype Dest = Dest(dir: Path, path: Path)

  /** `os.path.relpath(src, common)` for a path at or under `common`. */
  datatype Rel = Here | Below(tail: Path)

  function RelPath(src: Path, common: Path): (r: Rel)
    requires IsPrefix(common, src)
    ensures r.Below? ==> |r.tail| > 0 && src == common + r.tail
  {
    if |src| == |common| then Here else Below(src[|common|..])
  }

  /**
   * `os.path.join(temp, rel)` and its `dirname`: `temp/.` names the staging
   * directory itself, whose `dirname` is that directory again.
   */
  function JoinDest(temp: Path, rel: Rel): Dest {
    match rel
    case Here => Dest(temp, temp)
    case Below(t) => Dest(temp + Dirname(t), temp + t)
  }

  /** The outcome of staging one file: `makedirs`, then the move; a failure skips the file. */
  function StageOne(fs: Fs, src: Path, d: Dest): (Fs, bool) {
    match MakeDirs(fs, d.dir)
    case None => (fs, false)
    case Some(fs1) =>
      match Move(fs1, src, d.path)
      case None => (fs1, false)
      case Some(fs2) => (fs2, true)
  }

  /** When both steps succeed, staging one file yields the moved file system. */
  lemma StageOneMoves(fs: Fs, src: Path, d: Dest, fs1: Fs, fs2: Fs)
    requires MakeDirs(fs, d.dir) == Some(fs1) && Move(fs1, src, d.path) == Some(fs2)
    ensures StageOne(fs, src, d) == (fs2, true)
  {
  }

  /** What `wipe_target`'s move loop leaves: the file system, the undo stack, and whether it stopped. */
  datatype Staged = Staged(fs: Fs, stack: seq<Entry>, stopped: bool)

  /**
   * The move loop from file `i` on, with `step` moving one file: the `i`-th
   * stop-flag read sees `interrupt(i)`; a stop breaks out, a failed move is
   * skipped, a successful one is pushed on the stack.
   */
  function StageWith(step: (Fs, Path, Dest) -> (Fs, bool), fs: Fs, srcs: seq<Path>, dests: seq<Dest>, i: nat,
                     interrupt: Interrupts, stack: seq<Entry>): Staged
    requires |dests| == |srcs| && i <= |srcs|
    decreases |srcs| - i
  {
    if i == |srcs| then Staged(fs, stack, false)
    else if interrupt(i) then Staged(fs, stack, true)
    else
      var (fs', moved) := step(fs, srcs[i], dests[i]);
      StageWith(step, fs', srcs, dests, i + 1, interrupt, if moved then stack + [Entry(srcs[i], dests[i].path)] else stack)
  }

  /** `wipe_target`'s move loop from file `i` on. */
  function StageFrom(fs: Fs, srcs: seq<Path>, dests: seq<Dest>, i: nat, interrupt: Interrupts, stack: seq<Entry>): Staged
    requires |dests| == |srcs| && i <= |srcs|
  {
    StageWith(StageOne, fs, srcs, dests, i, interrupt, stack)
  }

  /** One round of the move loop: without a stop, file `i` is staged and the loop goes on from `i + 1`. */
  lemma StageFromStep(fs: Fs, srcs: seq<Path>, dests: seq<Dest>, i: nat, interrupt: Interrupts, stack: seq<Entry>)
    requires |dests| == |srcs| && i < |srcs| && !interrupt(i)
    ensures var (fs', moved) := StageOne(fs, srcs[i], dests[i]);
      StageFrom(fs, srcs, dests, i, interrupt, stack) ==
      StageFrom(fs', srcs, dests, i + 1, interrupt, if moved then stack + [Entry(srcs[i], dests[i].path)] else stack)
  {
  }

  /** The move loop over a single file that no stop interrupts. */
  lemma StageSingle(fs: Fs, src: Path, d: Dest, interrupt: Interrupts)
    requires !interrupt(0)
    ensures StageFrom(fs, [src], [d], 0, interrupt, []) ==
      Staged(StageOne(fs, src, d).0, if StageOne(fs, src, d).1 then [Entry(src, d.path)] else [], false)
  {
    var (fs1, moved) := StageOne(fs, src, d);
    var stack: seq<Entry> := if moved then [Entry(src, d.path)] else [];
    assert [src][0] == src && [d][0] == d;
    assert (if moved then [] + [Entry(src, d.path)] else []) == stack;
    assert StageWith(StageOne, fs, [src], [d], 0, interrupt, []) == StageWith(StageOne, fs1, [src], [d], 1, interrupt, stack);
  }

  /** `undo`'s loop body for one entry: recreate the parent, move the file back; a failure skips it. */
  function UndoOne(fs: Fs, e: Entry): Fs {
    match MakeDirs(fs, Dirname(e.original))
    case None => fs
    case Some(fs1) =>
      match Move(fs1, e.temp, e.original)
      case None => fs1
      case Some(fs2) => fs2
  }

  /** When both steps succeed, undoing one entry yields the moved file system. */
  lemma UndoOneMoves(fs: Fs, e: Entry, fs1: Fs, fs2: Fs)
    requires MakeDirs(fs, Dirname(e.original)) == Some(fs1) && Move(fs1, e.temp, e.original) == Some(fs2)
    ensures UndoOne(fs, e) == fs2
  {
  }

  /** Applies `step` to each entry in the order given. */
  function Replay(step: (Fs, Entry) -> Fs, fs: Fs, es: seq<Entry>): Fs
    decreases |es|
  {
    if |es| == 0 then fs else Replay(step, step(fs, es[0]), es[1..])
  }

  lemma ReplaySingle(step: (Fs, Entry) -> Fs, fs: Fs, e: Entry)
    ensures Replay(step, fs, [e]) == step(fs, e)
  {
  }

  /** `undo`'s loop over the entries in the order given. */
  function UndoEach(fs: Fs, es: seq<Entry>): Fs {
    Replay(UndoOne, fs, es)
  }

  /** `reversed(s)`. */
  function Reversed<T>(s: seq<T>): (r: seq<T>)
    ensures |r| == |s|
  {
    if |s| == 0 then [] else [s[|s| - 1]] + Reversed(s[..|s| - 1])
  }

  lemma DropPrefix<T>(s: seq<T>, x: seq<T>)
    ensures (s + x)[|s|..] == x
  {
  }

  // ----- staging then undoing restores the files -----

  /** The destination paths in order. */
  function Paths(dests: seq<Dest>): (r: seq<Path>)
    ensures |r| == |dests| && forall i :: 0 <= i < |dests| ==> r[i] == dests[i].path
  {
    seq(|dests|, i requires 0 <= i < |dests| => dests[i].path)
  }

  /** The entries a run without failures pushes. */
  function Entries(srcs: seq<Path>, dests: seq<Dest>): (r: seq<Entry>)
    requires |dests| == |srcs|
    ensures |r| == |srcs| && forall i :: 0 <= i < |srcs| ==> r[i] == Entry(srcs[i], dests[i].path)
  {
    seq(|srcs|, i requires 0 <= i < |srcs| => Entry(srcs[i], dests[i].path))
  }

  /** `q` is no file of `fs` and none of the paths involved in the staging. */
  predicate Clear(fs: Fs, srcs: seq<Path>, dps: seq<Path>, q: Path) {
    q !in fs.files && q !in srcs && q !in dps
  }

  /** The elements of `s` are pairwise different. */
  predicate Distinct(s: seq<Path>) {
    forall i, j :: 0 <= i < j < |s| ==> s[i] != s[j]
  }

  /**
   * Nothing can fail: every source is a file, every destination is free
   * and differs from every other path involved, its `makedirs` directory
   * is its parent, and no ancestor of any of them is a file or one of them.
   */
  predicate Ready(fs: Fs, srcs: seq<Path>, dests: seq<Dest>) {
    var dps := Paths(dests);
    |dests| == |srcs| &&
    (forall i :: 0 <= i < |srcs| ==> srcs[i] in fs.files && srcs[i] !in fs.dirs && |srcs[i]| > 0 && srcs[i] !in dps) &&
    (forall i :: 0 <= i < |dps| ==> dps[i] !in fs.files && dps[i] !in fs.dirs && |dps[i]| > 0) &&
    (forall i :: 0 <= i < |dests| ==> dests[i].dir == Dirname(dests[i].path)) &&
    Distinct(srcs) && Distinct(dps) &&
    (forall i, k :: 0 <= i < |srcs| && 0 <= k < |srcs[i]| ==> Clear(fs, srcs, dps, srcs[i][..k])) &&
    (forall i, k :: 0 <= i < |dps| && 0 <= k < |dps[i]| ==> Clear(fs, srcs, dps, dps[i][..k]))
  }

  /** `p` holds in `fs` what it held in `fs0`. */
  predicate Kept(fs0: Fs, fs: Fs, p: Path) {
    (p in fs.files <==> p in fs0.files) && (p in fs.files ==> fs.files[p] == fs0.files[p])
  }

  /**
   * The files after the first `k` moves: those sources are gone and their
   * contents sit at their destinations, the other sources are in place, and
   * every path not involved is as it was; no path involved is a directory.
   */
  ghost predicate StagedAt(fs0: Fs, srcs: seq<Path>, dps: seq<Path>, k: nat, fs: Fs)
    requires |dps| == |srcs| && k <= |srcs| && forall i :: 0 <= i < |srcs| ==> srcs[i] in fs0.files
  {
    (forall j :: 0 <= j < k ==> srcs[j] !in fs.files && dps[j] in fs.files && fs.files[dps[j]] == fs0.files[srcs[j]]) &&
    (forall j :: k <= j < |srcs| ==> srcs[j] in fs.files && fs.files[srcs[j]] == fs0.files[srcs[j]] && dps[j] !in fs.files) &&
    (forall p :: p !in srcs && p !in dps ==> Kept(fs0, fs, p)) &&
    (forall j :: 0 <= j < |srcs| ==> srcs[j] !in fs.dirs && dps[j] !in fs.dirs)
  }

  /** Only `d`'s own prefixes are prefixes of `d` of their length. */
  lemma PrefixOf(q: Path, d: Path)
    ensures IsPrefix(q, d) ==> q == d[..|q|]
  {
  }

  /** `makedirs` of the parent of a path whose ancestors are all clear succeeds and keeps the state. */
  lemma MakeParent(fs0: Fs, srcs: seq<Path>, dests: seq<Dest>, k: nat, fs: Fs, x: Path)
    requires Ready(fs0, srcs, dests) && k <= |srcs| && StagedAt(fs0, srcs, Paths(dests), k, fs)
    requires |x| > 0 && forall m :: 0 <= m < |x| ==> Clear(fs0, srcs, Paths(dests), x[..m])
    ensures MakeDirs(fs, Dirname(x)).Some?
    ensures var fs1 := MakeDirs(fs, Dirname(x)).value;
      Dirname(x) in fs1.dirs && StagedAt(fs0, srcs, Paths(dests), k, fs1)
  {
    var dps := Paths(dests);
    var d := Dirname(x);
    forall m | 0 <= m <= |d| ensures d[..m] !in fs.files && d[..m] !in srcs && d[..m] !in dps {
      assert d[..m] == x[..m];
      assert Kept(fs0, fs, d[..m]);
    }
    var fs1 := MakeDirs(fs, d).value;
    forall j | 0 <= j < |srcs| ensures srcs[j] !in fs1.dirs && dps[j] !in fs1.dirs {
      PrefixOf(srcs[j], d);
      PrefixOf(dps[j], d);
    }
  }

  /** The sources and the destinations are all different paths. */
  predicate Apart(srcs: seq<Path>, dps: seq<Path>) {
    |dps| == |srcs| && Distinct(srcs) && Distinct(dps) &&
    forall i :: 0 <= i < |srcs| ==> srcs[i] !in dps
  }

  lemma ReadyApart(fs: Fs, srcs: seq<Path>, dests: seq<Dest>)
    requires Ready(fs, srcs, dests)
    ensures Apart(srcs, Paths(dests)) && forall i :: 0 <= i < |srcs| ==> srcs[i] in fs.files
  {
  }

  /** Moving source `k` to its destination takes the state of `k` moves to that of `k + 1`. */
  lemma Forward(fs0: Fs, srcs: seq<Path>, dps: seq<Path>, k: nat, fs: Fs, fs': Fs)
    requires Apart(srcs, dps) && k < |srcs| && forall i :: 0 <= i < |srcs| ==> srcs[i] in fs0.files
    requires StagedAt(fs0, srcs, dps, k, fs) && fs'.dirs == fs.dirs
    requires fs'.files == fs.files - {srcs[k]} + map[dps[k] := fs.files[srcs[k]]]
    ensures StagedAt(fs0, srcs, dps, k + 1, fs')
  {
    forall j | 0 <= j < |srcs| && j != k ensures srcs[j] != srcs[k] && dps[j] != dps[k] && srcs[j] != dps[k] && dps[j] != srcs[k] {
    }
  }

  /** Moving destination `k` back to its source takes the state of `k + 1` moves to that of `k`. */
  lemma Backward(fs0: Fs, srcs: seq<Path>, dps: seq<Path>, k: nat, fs: Fs, fs': Fs)
    requires Apart(srcs, dps) && k < |srcs| && forall i :: 0 <= i < |srcs| ==> srcs[i] in fs0.files
    requires StagedAt(fs0, srcs, dps, k + 1, fs) && fs'.dirs == fs.dirs
    requires fs'.files == fs.files - {dps[k]} + map[srcs[k] := fs.files[dps[k]]]
    ensures StagedAt(fs0, srcs, dps, k, fs')
  {
    forall j | 0 <= j < |srcs| && j != k ensures srcs[j] != srcs[k] && dps[j] != dps[k] && srcs[j] != dps[k] && dps[j] != srcs[k] {
    }
  }

  /** Move `k` lands: the source's content goes to its destination. */
  lemma StageStep(fs0: Fs, srcs: seq<Path>, dests: seq<Dest>, k: nat, fs: Fs)
    requires Ready(fs0, srcs, dests) && k < |srcs| && StagedAt(fs0, srcs, Paths(dests), k, fs)
    ensures StageOne(fs, srcs[k], dests[k]).1
    ensures StagedAt(fs0, srcs, Paths(dests), k + 1, StageOne(fs, srcs[k], dests[k]).0)
  {
    var dps := Paths(dests);
    ReadyApart(fs0, srcs, dests);
    MakeParent(fs0, srcs, dests, k, fs, dps[k]);
    var fs1 := MakeDirs(fs, dests[k].dir).value;
    MoveFile(fs1, srcs[k], dps[k]);
    Forward(fs0, srcs, dps, k, fs1, Move(fs1, srcs[k], dps[k]).value);
  }

  /** Undoing entry `k - 1` moves the file back: the state is that of `k - 1` moves again. */
  lemma UndoStep(fs0: Fs, srcs: seq<Path>, dests: seq<Dest>, k: nat, fs: Fs, e: Entry)
    requires Ready(fs0, srcs, dests) && 0 < k <= |srcs| && StagedAt(fs0, srcs, Paths(dests), k, fs)
    requires e == Entry(srcs[k - 1], dests[k - 1].path)
    ensures StagedAt(fs0, srcs, Paths(dests), k - 1, UndoOne(fs, e))
  {
    var dps := Paths(dests);
    var i := k - 1;
    ReadyApart(fs0, srcs, dests);
    MakeParent(fs0, srcs, dests, k, fs, srcs[i]);
    var fs1 := MakeDirs(fs, Dirname(srcs[i])).value;
    MoveFile(fs1, dps[i], srcs[i]);
    assert i + 1 == k;
    Backward(fs0, srcs, dps, i, fs1, Move(fs1, dps[i], srcs[i]).value);
  }

  /** Every undo step takes back the latest move still in place. */
  lemma UndoSteps(fs0: Fs, srcs: seq<Path>, dests: seq<Dest>)
    requires Ready(fs0, srcs, dests)
    ensures forall j, g :: 0 < j <= |srcs| && StagedAt(fs0, srcs, Paths(dests), j, g) ==>
      StagedAt(fs0, srcs, Paths(dests), j - 1, UndoOne(g, Entry(srcs[j - 1], dests[j - 1].path)))
  {
    forall j, g | 0 < j <= |srcs| && StagedAt(fs0, srcs, Paths(dests), j, g)
      ensures StagedAt(fs0, srcs, Paths(dests), j - 1, UndoOne(g, Entry(srcs[j - 1], dests[j - 1].path)))
    {
      UndoStep(fs0, srcs, dests, j, g, Entry(srcs[j - 1], dests[j - 1].path));
    }
  }

  /** The entries of the first `k` moves, in the order they are pushed. */
  function EntriesTo(srcs: seq<Path>, dests: seq<Dest>, k: nat): seq<Entry>
    requires |dests| == |srcs| && k <= |srcs|
  {
    if k == 0 then [] else EntriesTo(srcs, dests, k - 1) + [Entry(srcs[k - 1], dests[k - 1].path)]
  }

  lemma {:induction false} EntriesToAt(srcs: seq<Path>, dests: seq<Dest>, k: nat)
    requires |dests| == |srcs| && k <= |srcs|
    ensures |EntriesTo(srcs, dests, k)| == k
    ensures forall i :: 0 <= i < k ==> EntriesTo(srcs, dests, k)[i] == Entry(srcs[i], dests[i].path)
  {
    if k > 0 {
      EntriesToAt(srcs, dests, k - 1);
    }
  }

  /** All the moves push all the entries. */
  lemma EntriesToAll(srcs: seq<Path>, dests: seq<Dest>)
    requires |dests| == |srcs|
    ensures EntriesTo(srcs, dests, |srcs|) == Entries(srcs, dests)
  {
    EntriesToAt(srcs, dests, |srcs|);
  }

  /** Reversing puts a last element first. */
  lemma ReversedSnoc<T>(s: seq<T>, e: T)
    ensures Reversed(s + [e]) == [e] + Reversed(s)
  {
    assert (s + [e])[..|s|] == s;
  }

  /**
   * From `k` moves on, a loop whose step performs every move still to come
   * performs them all and pushes their entries.
   */
  lemma {:induction false} StageRuns(step: (Fs, Path, Dest) -> (Fs, bool), fs0: Fs, srcs: seq<Path>, dests: seq<Dest>, k: nat, fs: Fs,
                                     interrupt: Interrupts)
    requires Ready(fs0, srcs, dests) && k <= |srcs| && StagedAt(fs0, srcs, Paths(dests), k, fs)
    requires forall i :: k <= i < |srcs| ==> !interrupt(i)
    requires forall j, g :: 0 <= j < |srcs| && StagedAt(fs0, srcs, Paths(dests), j, g) ==>
      step(g, srcs[j], dests[j]).1 && StagedAt(fs0, srcs, Paths(dests), j + 1, step(g, srcs[j], dests[j]).0)
    ensures var s := StageWith(step, fs, srcs, dests, k, interrupt, EntriesTo(srcs, dests, k));
      !s.stopped && s.stack == EntriesTo(srcs, dests, |srcs|) && StagedAt(fs0, srcs, Paths(dests), |srcs|, s.fs)
    decreases |srcs| - k
  {
    if k < |srcs| {
      var next := step(fs, srcs[k], dests[k]).0;
      assert EntriesTo(srcs, dests, k + 1) == EntriesTo(srcs, dests, k) + [Entry(srcs[k], dests[k].path)];
      StageRuns(step, fs0, srcs, dests, k + 1, next, interrupt);
    }
  }

  /** Every move step performs the next move, whatever came before it. */
  lemma StageSteps(fs0: Fs, srcs: seq<Path>, dests: seq<Dest>)
    requires Ready(fs0, srcs, dests)
    ensures forall j, g :: 0 <= j < |srcs| && StagedAt(fs0, srcs, Paths(dests), j, g) ==>
      StageOne(g, srcs[j], dests[j]).1 && StagedAt(fs0, srcs, Paths(dests), j + 1, StageOne(g, srcs[j], dests[j]).0)
  {
    forall j, g | 0 <= j < |srcs| && StagedAt(fs0, srcs, Paths(dests), j, g)
      ensures StageOne(g, srcs[j], dests[j]).1 && StagedAt(fs0, srcs, Paths(dests), j + 1, StageOne(g, srcs[j], dests[j]).0)
    {
      StageStep(fs0, srcs, dests, j, g);
    }
  }

  /** The entries of the first `k` moves, the last one first: the order `undo` takes them in. */
  function Backs(srcs: seq<Path>, dests: seq<Dest>, k: nat): (r: seq<Entry>)
    requires |dests| == |srcs| && k <= |srcs|
    ensures |r| == k
  {
    if k == 0 then [] else [Entry(srcs[k - 1], dests[k - 1].path)] + Backs(srcs, dests, k - 1)
  }

  lemma {:induction false} BacksReversed(srcs: seq<Path>, dests: seq<Dest>, k: nat)
    requires |dests| == |srcs| && k <= |srcs|
    ensures Backs(srcs, dests, k) == Reversed(EntriesTo(srcs, dests, k))
  {
    if k > 0 {
      BacksReversed(srcs, dests, k - 1);
      ReversedSnoc(EntriesTo(srcs, dests, k - 1), Entry(srcs[k - 1], dests[k - 1].path));
    }
  }

  /**
   * Replaying the entries of the first `k` moves, the last one first, with a
   * step that takes back one move at a time, leaves the original files.
   */
  lemma {:induction false} ReplayRuns(step: (Fs, Entry) -> Fs, fs0: Fs, srcs: seq<Path>, dests: seq<Dest>, k: nat, fs: Fs)
    requires Ready(fs0, srcs, dests) && k <= |srcs| && StagedAt(fs0, srcs, Paths(dests), k, fs)
    requires forall j, g :: 0 < j <= |srcs| && StagedAt(fs0, srcs, Paths(dests), j, g) ==>
      StagedAt(fs0, srcs, Paths(dests), j - 1, step(g, Entry(srcs[j - 1], dests[j - 1].path)))
    ensures StagedAt(fs0, srcs, Paths(dests), 0, Replay(step, fs, Backs(srcs, dests, k)))
    decreases k
  {
    if k > 0 {
      var es := Backs(srcs, dests, k);
      var e := Entry(srcs[k - 1], dests[k - 1].path);
      assert es[0] == e;
      DropPrefix([e], Backs(srcs, dests, k - 1));
      ReplayRuns(step, fs0, srcs, dests, k - 1, step(fs, e));
    }
  }

  /** The state before any move is the original one, file for file. */
  lemma NothingStaged(fs0: Fs, srcs: seq<Path>, dps: seq<Path>, fs: Fs)
    requires |dps| == |srcs| && forall i :: 0 <= i < |srcs| ==> srcs[i] in fs0.files && dps[i] !in fs0.files
    requires StagedAt(fs0, srcs, dps, 0, fs)
    ensures fs.files == fs0.files
  {
    forall p ensures (p in fs.files <==> p in fs0.files) && (p in fs.files ==> fs.files[p] == fs0.files[p]) {
      if p in srcs {
        var j :| 0 <= j < |srcs| && srcs[j] == p;
      } else if p in dps {
        var j :| 0 <= j < |dps| && dps[j] == p;
      } else {
        assert Kept(fs0, fs, p);
      }
    }
  }

  /**
   * Staging every file and then undoing the stack restores every file to
   * its original path with its original content, and nothing else.
   */
  lemma RoundTrip(fs: Fs, srcs: seq<Path>, dests: seq<Dest>, interrupt: Interrupts)
    requires Ready(fs, srcs, dests) && forall i :: 0 <= i < |srcs| ==> !interrupt(i)
    ensures var s := StageFrom(fs, srcs, dests, 0, interrupt, []);
      !s.stopped && s.stack == Entries(srcs, dests) &&
      UndoEach(s.fs, Reversed(s.stack)).files == fs.files
  {
    assert EntriesTo(srcs, dests, 0) == [];
    var dps := Paths(dests);
    forall p | p !in srcs && p !in dps ensures Kept(fs, fs, p) {
    }
    StageSteps(fs, srcs, dests);
    StageRuns(StageOne, fs, srcs, dests, 0, fs, interrupt);
    var s := StageFrom(fs, srcs, dests, 0, interrupt, []);
    EntriesToAll(srcs, dests);
    BacksReversed(srcs, dests, |srcs|);
    UndoSteps(fs, srcs, dests);
    ReplayRuns(UndoOne, fs, srcs, dests, |srcs|, s.fs);
    NothingStaged(fs, srcs, dps, UndoEach(s.fs, Reversed(s.stack)));
  }
}
