/**
 * The mobile wiping service (`DataWipingService`): each file under the
 * target is overwritten pass after pass through a temporary file
 * `<path>.tmp` that replaces it, then unlinked.  Runs do not overlap
 * (`isWiping`), and a `cancelWiping` call raises `shouldCancel`, which the
 * run reads before every file and before every pass.
 *
 * Randomness: the `k`-th cancel check of a run is followed, at most, by one
 * call of `generateRandomBuffer`; that draw is `rng(k, 0..1023)`.
 * Concurrency: the one `cancelWiping` call a run may see lands just before
 * its cancel check numbered `cancel.value`.
 */
module MobileWipe {
  import opened Common
  import opened MobileFs

  /** `WipingMethod`; `Unlisted` is any other string a caller passes at run time. */
  datatype WipeMethod = Dod | Nist | Gutmann | RandomData | Zero | Unlisted(name: string)

  /**
   * `getPassesForMethod`: a truthy `passes` option (present and non-zero)
   * wins; otherwise 3, 1, 35, 7, 1 by method and 3 for anything else.
   */
  function PassesForMethod(m: WipeMethod, custom: Option<int>): (r: int)
    ensures custom.Some? && custom.value != 0 ==> r == custom.value
    ensures custom.None? || custom.value == 0 ==> 1 <= r <= 35
  {
    if custom.Some? && custom.value != 0 then custom.value
    else
      match m
      case Dod => 3
      case Nist => 1
      case Gutmann => 35
      case RandomData => 7
      case Zero => 1
      case Unlisted(_) => 3
  }

  /** Every pattern buffer is 1024 bytes. */
  const PATTERN_SIZE: nat := 1024

  /** The sixteen fill bytes of the simplified Gutmann sequence. */
  const GUTMANN_TABLE: seq<Byte> := [0x00, 0xFF, 0x55, 0xAA, 0x92, 0x49, 0x24, 0x6D,
                                     0xB6, 0xDB, 0x95, 0x55, 0xAA, 0x24, 0x49, 0x92]

  /** `getGutmannPattern`: pass `p` fills with table entry `(p - 1) % 16`. */
  function GutmannPattern(pass: nat): (r: seq<Byte>)
    requires pass >= 1
    ensures |r| == PATTERN_SIZE
    ensures forall i :: 0 <= i < |r| ==> r[i] == GUTMANN_TABLE[(pass - 1) % 16]
  {
    Fill(GUTMANN_TABLE[(pass - 1) % |GUTMANN_TABLE|], PATTERN_SIZE)
  }

  /** `generateRandomBuffer(1024)` as draw number `draw`. */
  function RandomBuffer(rng: Entropy, draw: nat): seq<Byte> {
    Random(rng, draw, 0, PATTERN_SIZE)
  }

  /** `getPatternForPass`; `draw` numbers the random buffer when one is drawn. */
  function PatternForPass(m: WipeMethod, pass: nat, rng: Entropy, draw: nat): (r: seq<Byte>)
    requires pass >= 1
    ensures |r| == PATTERN_SIZE
  {
    match m
    case Dod =>
      if pass == 1 then Fill(0x00, PATTERN_SIZE)
      else if pass == 2 then Fill(0xFF, PATTERN_SIZE)
      else RandomBuffer(rng, draw)
    case Nist => RandomBuffer(rng, draw)
    case Gutmann => GutmannPattern(pass)
    case RandomData => RandomBuffer(rng, draw)
    case Zero => Fill(0x00, PATTERN_SIZE)
    case Unlisted(_) => RandomBuffer(rng, draw)
  }

  // ----- overwriteFile -----

  /**
   * The chunks `overwriteFile` still appends once `written` of `size` bytes
   * are out: `min(pattern.length, remaining)` bytes from the start of
   * `pattern`, each time.
   */
  function ChunksFrom(pattern: seq<Byte>, written: nat, size: nat): (r: seq<Byte>)
    requires |pattern| > 0 && written <= size
    ensures |r| == size - written
    decreases size - written
  {
    if written == size then []
    else
      var n := Min(|pattern|, size - written);
      pattern[..n] + ChunksFrom(pattern, written + n, size)
  }

  /** Everything one call appends to the temporary file. */
  function Chunked(pattern: seq<Byte>, size: nat): (r: seq<Byte>)
    requires |pattern| > 0
  {
    ChunksFrom(pattern, 0, size)
  }

  /**
   * One more append to a file that `cur` shows with `a` already appended
   * (or nothing yet, when `a` is empty) is one append of `a + b`.
   */
  lemma AppendStep(fs: Fs, p: string, a: seq<Byte>, b: seq<Byte>, cur: Fs)
    requires (a == [] && cur == fs) || Append(fs, p, a) == Ok(cur)
    requires Append(cur, p, b).Ok?
    ensures Append(fs, p, a + b) == Append(cur, p, b)
  {
    if a == [] && cur == fs {
      assert a + b == b;
    } else {
      assert Content(cur, p) == Content(fs, p) + a;
      AppendAssoc(Content(fs, p), a, b);
    }
  }

  function TempOf(path: string): string {
    path + ".tmp"
  }

  /** The appends of `overwriteFile`'s loop taken together; an empty file gets none. */
  function Staged(fs: Fs, temp: string, pattern: seq<Byte>, size: nat): FsResult
    requires |pattern| > 0
  {
    if size == 0 then Ok(fs) else Append(fs, temp, Chunked(pattern, size))
  }

  /** The appends of `overwriteFile`'s loop from `written` bytes on, chunk by chunk, starting from `cur`. */
  function StagedFrom(cur: Fs, temp: string, pattern: seq<Byte>, written: nat, size: nat): FsResult
    requires |pattern| > 0 && written <= size
    decreases size - written
  {
    if written == size then Ok(cur)
    else
      var chunk := pattern[..Min(|pattern|, size - written)];
      match Append(cur, temp, chunk)
      case Failed(e) => Failed(e)
      case Ok(next) => StagedFrom(next, temp, pattern, written + |chunk|, size)
  }

  /**
   * Appending chunk by chunk from `written` bytes on has the effect of one
   * append of all the remaining chunks: it fails, leaving the error of the
   * first append, exactly when that one append fails.
   */
  lemma {:induction false} StagedFromAll(cur: Fs, temp: string, pattern: seq<Byte>, written: nat, size: nat)
    requires |pattern| > 0 && written <= size
    ensures StagedFrom(cur, temp, pattern, written, size)
         == if written == size then Ok(cur) else Append(cur, temp, ChunksFrom(pattern, written, size))
    decreases size - written
  {
    if written < size {
      var chunk := pattern[..Min(|pattern|, size - written)];
      var rest := ChunksFrom(pattern, written + |chunk|, size);
      assert ChunksFrom(pattern, written, size) == chunk + rest;
      match Append(cur, temp, chunk)
      case Failed(e) =>
      case Ok(next) =>
        StagedFromAll(next, temp, pattern, written + |chunk|, size);
        if written + |chunk| == size {
          assert chunk + rest == chunk;
        } else {
          AppendStep(cur, temp, chunk, rest, next);
        }
    }
  }

  /** The chunk loop of `overwriteFile` stages what `Staged` describes. */
  lemma StagedInChunks(fs: Fs, temp: string, pattern: seq<Byte>, size: nat)
    requires |pattern| > 0
    ensures StagedFrom(fs, temp, pattern, 0, size) == Staged(fs, temp, pattern, size)
  {
    StagedFromAll(fs, temp, pattern, 0, size);
  }

  /** The state after an operation and the error it raised, if any. */
  datatype Effect = Effect(fs: Fs, error: Option<FsError>)

  /** `overwriteFile`: append the chunks to `<path>.tmp`, then move it over `path`. */
  function Overwrite(fs: Fs, path: string, pattern: seq<Byte>, size: nat): Effect
    requires |pattern| > 0
  {
    match Staged(fs, TempOf(path), pattern, size)
    case Failed(e) => Effect(fs, Some(e))
    case Ok(fs1) =>
      match Move(fs1, TempOf(path), path)
      case Failed(e) => Effect(fs1, Some(e))
      case Ok(fs2) => Effect(fs2, None)
  }

  // ----- wipeFile -----

  /** The cancel check numbered `step` sees the flag raised. */
  predicate CancelSeen(cancel: Option<nat>, step: nat) {
    cancel.Some? && cancel.value <= step
  }

  /** Why a file, or the whole run, failed (the `message` of the error). */
  datatype Cause = Io(error: FsError) | NotAFile(path: string) | OperationCancelled | CancelledByUser

  /**
   * One `wipeFile` call: the state, the next cancel-check number, the pass
   * numbers given to the pass callback, and the error it raised, if any.
   */
  datatype FileRun = FileRun(fs: Fs, step: nat, reported: seq<nat>, error: Option<Cause>)

  /** Passes `pass..passes` of `wipeFile` over a file of `size` bytes. */
  function PassesFrom(fs: Fs, path: string, m: WipeMethod, size: nat, pass: nat, passes: int,
                      rng: Entropy, cancel: Option<nat>, step: nat, reported: seq<nat>): FileRun
    requires pass >= 1
    decreases if pass <= passes then passes - pass + 1 else 0
  {
    if pass > passes then FileRun(fs, step, reported, None)
    else if CancelSeen(cancel, step) then FileRun(fs, step + 1, reported, Some(OperationCancelled))
    else
      var e := Overwrite(fs, path, PatternForPass(m, pass, rng, step), size);
      if e.error.Some? then FileRun(e.fs, step + 1, reported + [pass], Some(Io(e.error.value)))
      else PassesFrom(e.fs, path, m, size, pass + 1, passes, rng, cancel, step + 1, reported + [pass])
  }

  /** One pass that is not cancelled, given its overwrite's effect `e`. */
  lemma {:induction false} PassStep(fs: Fs, path: string, m: WipeMethod, size: nat, pass: nat, passes: int,
                 rng: Entropy, cancel: Option<nat>, step: nat, reported: seq<nat>, e: Effect)
    requires 1 <= pass <= passes && !CancelSeen(cancel, step)
    requires e == Overwrite(fs, path, PatternForPass(m, pass, rng, step), size)
    ensures PassesFrom(fs, path, m, size, pass, passes, rng, cancel, step, reported)
         == if e.error.Some? then FileRun(e.fs, step + 1, reported + [pass], Some(Io(e.error.value)))
            else PassesFrom(e.fs, path, m, size, pass + 1, passes, rng, cancel, step + 1, reported + [pass])
  {
  }

  /** `wipeFile`: a regular file gets its passes and is then unlinked. */
  function WipeFileRun(fs: Fs, path: string, m: WipeMethod, passes: int,
                       rng: Entropy, cancel: Option<nat>, step: nat): FileRun
  {
    match StatOf(fs, path)
    case NoEntry => FileRun(fs, step, [], Some(Io(NoSuchFile(path))))
    case IsDir => FileRun(fs, step, [], Some(NotAFile(path)))
    case IsFile(size) =>
      var r := PassesFrom(fs, path, m, size, 1, passes, rng, cancel, step, []);
      if r.error.Some? then r
      else
        match Unlink(r.fs, path)
        case Failed(e) => r.(error := Some(Io(e)))
        case Ok(fs') => r.(fs := fs')
  }

  // ----- getFilesToWipe -----

  /** The files under a target, or the first path whose `stat` failed. */
  datatype Listing = Listed(paths: seq<string>) | Unreachable(path: string)

  /** `getFilesToWipe` of the wiping service: no error is caught on the way down. */
  function ListFiles(fs: Fs, p: string): Listing
    decreases Height(fs, p), 1
  {
    if p in fs.files then Listed([p])
    else if p in fs.dirs then ListEach(fs, p, fs.dirs[p])
    else Unreachable(p)
  }

  function ListEach(fs: Fs, p: string, names: seq<string>): Listing
    requires p in fs.dirs
    decreases Height(fs, p), 0, |names|
  {
    if names == [] then Listed([])
    else
      ChildLower(fs, p, names[0]);
      match ListFiles(fs, Child(p, names[0]))
      case Unreachable(q) => Unreachable(q)
      case Listed(xs) =>
        match ListEach(fs, p, names[1..])
        case Unreachable(q) => Unreachable(q)
        case Listed(ys) => Listed(xs + ys)
  }

  /** The listing `l` with `files` in front of its paths; a failure stays as it is. */
  function Prefixed(files: seq<string>, l: Listing): Listing {
    match l
    case Unreachable(q) => Unreachable(q)
    case Listed(ys) => Listed(files + ys)
  }

  /**
   * One entry of a directory listing: with `files` listed so far, a failing
   * entry ends the listing with its failure; otherwise its paths join the
   * ones listed so far and the remaining entries follow.
   */
  lemma ListEachStep(fs: Fs, p: string, names: seq<string>, i: nat, files: seq<string>, sub: Listing)
    requires p in fs.dirs && i < |names|
    requires sub == ListFiles(fs, Child(p, names[i]))
    ensures Prefixed(files, ListEach(fs, p, names[i..]))
         == if sub.Unreachable? then sub else Prefixed(files + sub.paths, ListEach(fs, p, names[i + 1..]))
  {
    assert names[i..][0] == names[i] && names[i..][1..] == names[i + 1..];
    if sub.Listed? {
      match ListEach(fs, p, names[i + 1..])
      case Unreachable(q) =>
      case Listed(ys) =>
        assert files + (sub.paths + ys) == files + sub.paths + ys;
    }
  }

  // ----- wipeData -----

  datatype Options = Options(scheme: WipeMethod, target: string, passes: Option<int>, verify: bool)

  /** An entry of `result.errors`: "Failed to wipe <path>: <cause>", or the message that ended the run. */
  datatype WipeError = FileFailed(path: string, cause: Cause) | Aborted(cause: Cause)

  /** `WipingResult` without `timeElapsed`. */
  datatype WipeResult = WipeResult(success: bool, filesWiped: nat, bytesWiped: nat,
                                   verificationPassed: bool, errors: seq<WipeError>)

  /** The state of `wipeData`'s file loop. */
  datatype Tally = Tally(fs: Fs, step: nat, filesWiped: nat, bytesWiped: nat,
                         errors: seq<WipeError>, aborted: bool)

  /** The size `stat` reports before a file's passes; only a regular file's is used. */
  function SizeOf(fs: Fs, p: string): nat {
    if p in fs.files then |fs.files[p]| else 0
  }

  /** `calculateTotalBytes`: the sizes `stat` reports, a path it cannot stat counting nothing. */
  function TotalBytes(fs: Fs, files: seq<string>): nat {
    if |files| == 0 then 0 else SizeOf(fs, files[0]) + TotalBytes(fs, files[1..])
  }

  /**
   * The loop's accounting after file `f`, whose `wipeFile` run is `r`.  A
   * missing file fails `stat` at the top of the body with the same error
   * `wipeFile` would raise, so both are one case.
   */
  function After(t: Tally, f: string, r: FileRun): Tally {
    if r.error.None? then Tally(r.fs, r.step, t.filesWiped + 1, t.bytesWiped + SizeOf(t.fs, f), t.errors, t.aborted)
    else Tally(r.fs, r.step, t.filesWiped, t.bytesWiped, t.errors + [FileFailed(f, r.error.value)], t.aborted)
  }

  /** The file loop of `wipeData`: a cancel seen before a file ends the run. */
  function WipeFiles(t: Tally, files: seq<string>, m: WipeMethod, passes: int,
                     rng: Entropy, cancel: Option<nat>): Tally
    decreases |files|
  {
    if |files| == 0 then t
    else if CancelSeen(cancel, t.step) then
      t.(step := t.step + 1, errors := t.errors + [Aborted(CancelledByUser)], aborted := true)
    else
      var r := WipeFileRun(t.fs, files[0], m, passes, rng, cancel, t.step + 1);
      WipeFiles(After(t, files[0], r), files[1..], m, passes, rng, cancel)
  }

  /** One file of the loop that is not cancelled, given its `wipeFile` run `r`. */
  lemma {:induction false} FileStep(t: Tally, files: seq<string>, m: WipeMethod, passes: int, rng: Entropy,
                 cancel: Option<nat>, f: string, r: FileRun)
    requires |files| > 0 && files[0] == f && !CancelSeen(cancel, t.step)
    requires r == WipeFileRun(t.fs, f, m, passes, rng, cancel, t.step + 1)
    ensures WipeFiles(t, files, m, passes, rng, cancel) == WipeFiles(After(t, f, r), files[1..], m, passes, rng, cancel)
  {
    var r0 := WipeFileRun(t.fs, files[0], m, passes, rng, cancel, t.step + 1);
    assert r0 == r;
  }

  /** A whole run: the final state, the number of cancel checks made, and the result. */
  datatype Run = Run(fs: Fs, steps: nat, result: WipeResult)

  function WipeRun(fs: Fs, options: Options, rng: Entropy, cancel: Option<nat>): Run {
    match ListFiles(fs, options.target)
    case Unreachable(p) => Run(fs, 0, WipeResult(false, 0, 0, false, [Aborted(Io(NoSuchFile(p)))]))
    case Listed(files) =>
      var passes := PassesForMethod(options.scheme, options.passes);
      var t := WipeFiles(Tally(fs, 0, 0, 0, [], false), files, options.scheme, passes, rng, cancel);
      if t.aborted then Run(t.fs, t.step, WipeResult(false, t.filesWiped, t.bytesWiped, false, t.errors))
      else Run(t.fs, t.step, WipeResult(t.errors == [], t.filesWiped, t.bytesWiped,
                                        options.verify && !Exists(t.fs, options.target), t.errors))
  }

  datatype Outcome = AlreadyInProgress | Completed(result: WipeResult)

  class DataWipingService {
    var isWiping: bool
    var shouldCancel: bool

    constructor ()
      ensures !isWiping && !shouldCancel
    {
      isWiping, shouldCancel := false, false;
    }

    /** `cancelWiping`. */
    method CancelWiping()
      modifies this`shouldCancel
      ensures shouldCancel
    {
      shouldCancel := true;
    }

    /** `isWipingInProgress`. */
    method IsWipingInProgress() returns (b: bool)
      ensures b == isWiping
    {
      b := isWiping;
    }

    /** `calculateTotalBytes`, on the state `fs` it finds. */
    static method CalculateTotalBytes(fs: Fs, files: seq<string>) returns (total: nat)
      ensures total == TotalBytes(fs, files)
    {
      total := 0;
      var i := 0;
      while i < |files|
        invariant i <= |files| && total + TotalBytes(fs, files[i..]) == TotalBytes(fs, files)
      {
        assert files[i..][1..] == files[i + 1..];
        var st := StatOf(fs, files[i]);
        if st.IsFile? {
          total := total + st.size;
        }
        i := i + 1;
      }
    }

    /** `verifyWipe`: the target no longer exists. */
    static method VerifyWipe(vol: Volume, target: string) returns (b: bool)
      ensures b == !Exists(vol.fs, target)
    {
      b := !(target in vol.fs.files || target in vol.fs.dirs);
    }

    /** A read of `shouldCancel` as cancel check number `step`, after the scheduled `cancelWiping`. */
    method CheckCancel(cancel: Option<nat>, step: nat) returns (stop: bool)
      requires shouldCancel == (cancel.Some? && cancel.value < step)
      modifies this`shouldCancel
      ensures stop == CancelSeen(cancel, step) && shouldCancel == stop
    {
      if cancel == Some(step) {
        CancelWiping();
      }
      stop := shouldCancel;
    }

    /**
     * The chunk loop of `overwriteFile`: appends `min(pattern.length,
     * remaining)` bytes at a time to `temp` until `size` bytes are out.
     */
    static method AppendChunks(fs: Fs, temp: string, pattern: seq<Byte>, size: nat) returns (fs': Fs, err: Option<FsError>)
      requires |pattern| > 0
      ensures Staged(fs, temp, pattern, size) == if err.Some? then Failed(err.value) else Ok(fs')
      ensures err.Some? ==> fs' == fs
    {
      StagedInChunks(fs, temp, pattern, size);
      fs' := fs;
      var written := 0;
      while written < size
        invariant written <= size
        invariant StagedFrom(fs', temp, pattern, written, size) == Staged(fs, temp, pattern, size)
        decreases size - written
      {
        var chunk := pattern[..Min(|pattern|, size - written)];
        var r := Append(fs', temp, chunk);
        if r.Failed? {
          return fs, Some(r.error);
        }
        fs', written := r.fs, written + |chunk|;
      }
      err := None;
    }

    /** `overwriteFile`, on the state `fs` it finds: the chunks go to `<path>.tmp`, which then replaces `path`. */
    static method OverwriteFile(fs: Fs, path: string, pattern: seq<Byte>, size: nat) returns (fs': Fs, err: Option<FsError>)
      requires |pattern| > 0
      ensures Effect(fs', err) == Overwrite(fs, path, pattern, size)
    {
      var temp := TempOf(path);
      fs', err := AppendChunks(fs, temp, pattern, size);
      if err.Some? {
        return;
      }
      var m := Move(fs', temp, path);
      if m.Failed? {
        return fs', Some(m.error);
      }
      fs' := m.fs;
    }

    /** `wipeFile`; `step0` is the number of the next cancel check of the run. */
    method WipeFile(fs: Fs, path: string, m: WipeMethod, passes: int, rng: Entropy,
                    cancel: Option<nat>, step0: nat)
      returns (fs': Fs, step: nat, reported: seq<nat>, error: Option<Cause>)
      requires shouldCancel == (cancel.Some? && cancel.value < step0)
      modifies this`shouldCancel
      ensures FileRun(fs', step, reported, error) == WipeFileRun(fs, path, m, passes, rng, cancel, step0)
      ensures shouldCancel == (cancel.Some? && cancel.value < step)
    {
      var st := StatOf(fs, path);
      if st.NoEntry? {
        return fs, step0, [], Some(Io(NoSuchFile(path)));
      } else if st.IsDir? {
        return fs, step0, [], Some(NotAFile(path));
      }
      fs', step, reported, error := RunPasses(fs, path, m, st.size, passes, rng, cancel, step0);
      if error.Some? {
        return;
      }
      var u := Unlink(fs', path);
      if u.Failed? {
        error := Some(Io(u.error));
      } else {
        fs' := u.fs;
      }
    }

    /** The pass loop of `wipeFile` over a regular file of `size` bytes. */
    method RunPasses(fs: Fs, path: string, m: WipeMethod, size: nat, passes: int, rng: Entropy,
                     cancel: Option<nat>, step0: nat)
      returns (fs': Fs, step: nat, reported: seq<nat>, error: Option<Cause>)
      requires shouldCancel == (cancel.Some? && cancel.value < step0)
      modifies this`shouldCancel
      ensures FileRun(fs', step, reported, error) == PassesFrom(fs, path, m, size, 1, passes, rng, cancel, step0, [])
      ensures shouldCancel == (cancel.Some? && cancel.value < step)
    {
      ghost var goal := PassesFrom(fs, path, m, size, 1, passes, rng, cancel, step0, []);
      fs', step, reported, error := fs, step0, [], None;
      var pass := 1;
      while pass <= passes
        invariant pass >= 1
        invariant shouldCancel == (cancel.Some? && cancel.value < step)
        invariant PassesFrom(fs', path, m, size, pass, passes, rng, cancel, step, reported) == goal
        decreases passes - pass
      {
        var run := PassNext(fs', path, m, size, pass, passes, rng, cancel, step, reported);
        if run.error.Some? {
          return run.fs, run.step, run.reported, run.error;
        }
        fs', step, reported := run.fs, run.step, run.reported;
        pass := pass + 1;
      }
    }

    /** The body of `wipeFile`'s pass loop for pass `pass`: the cancel check, the callback and the overwrite. */
    method PassNext(fs: Fs, path: string, m: WipeMethod, size: nat, pass: nat, passes: int, rng: Entropy,
                    cancel: Option<nat>, step: nat, reported: seq<nat>)
      returns (run: FileRun)
      requires 1 <= pass <= passes
      requires shouldCancel == (cancel.Some? && cancel.value < step)
      modifies this`shouldCancel
      ensures run.error.Some? ==> run == PassesFrom(fs, path, m, size, pass, passes, rng, cancel, step, reported)
      ensures run.error.None? ==> PassesFrom(run.fs, path, m, size, pass + 1, passes, rng, cancel, run.step, run.reported)
                                  == PassesFrom(fs, path, m, size, pass, passes, rng, cancel, step, reported)
      ensures shouldCancel == (cancel.Some? && cancel.value < run.step)
    {
      var stop := CheckCancel(cancel, step);
      if stop {
        return FileRun(fs, step + 1, reported, Some(OperationCancelled));
      }
      var pattern := PatternForPass(m, pass, rng, step);
      var fs1, err := OverwriteFile(fs, path, pattern, size);
      PassStep(fs, path, m, size, pass, passes, rng, cancel, step, reported, Effect(fs1, err));
      run := FileRun(fs1, step + 1, reported + [pass], if err.Some? then Some(Io(err.value)) else None);
    }

    /** `getFilesToWipe`. */
    static method GetFilesToWipe(fs: Fs, p: string) returns (r: Listing)
      ensures r == ListFiles(fs, p)
      decreases Height(fs, p)
    {
      var st := StatOf(fs, p);
      if st.IsFile? {
        return Listed([p]);
      } else if st.NoEntry? {
        return Unreachable(p);
      }
      var names := fs.dirs[p];
      var files: seq<string> := [];
      var i := 0;
      assert names[0..] == names;
      assert Prefixed(files, ListEach(fs, p, names)) == ListEach(fs, p, names);
      while i < |names|
        invariant i <= |names|
        invariant Prefixed(files, ListEach(fs, p, names[i..])) == ListEach(fs, p, names)
      {
        ChildLower(fs, p, names[i]);
        var sub := GetFilesToWipe(fs, Child(p, names[i]));
        ListEachStep(fs, p, names, i, files, sub);
        if sub.Unreachable? {
          return sub;
        }
        files := files + sub.paths;
        i := i + 1;
      }
      assert names[i..] == [];
      r := Listed(files);
    }

    /** `wipeData`; the progress callback and `timeElapsed` are not modelled. */
    method WipeData(vol: Volume, options: Options, rng: Entropy, cancel: Option<nat>) returns (out: Outcome)
      modifies this, vol
      ensures old(isWiping) ==> out == AlreadyInProgress && vol.fs == old(vol.fs)
                                && isWiping && shouldCancel == old(shouldCancel)
      ensures !old(isWiping) ==>
                var run := WipeRun(old(vol.fs), options, rng, cancel);
                out == Completed(run.result) && vol.fs == run.fs
                && !isWiping && shouldCancel == (cancel.Some? && cancel.value < run.steps)
    {
      if isWiping {
        return AlreadyInProgress;
      }
      isWiping := true;
      shouldCancel := false;
      var fs0 := vol.fs;
      var listing := GetFilesToWipe(fs0, options.target);
      if listing.Unreachable? {
        isWiping := false;
        return Completed(WipeResult(false, 0, 0, false, [Aborted(Io(NoSuchFile(listing.path)))]));
      }
      var t;
      t := WipeEach(fs0, listing.paths, options.scheme, PassesForMethod(options.scheme, options.passes), rng, cancel);
      vol.fs := t.fs;
      if t.aborted {
        isWiping := false;
        return Completed(WipeResult(false, t.filesWiped, t.bytesWiped, false, t.errors));
      }
      var verified := false;
      if options.verify {
        verified := VerifyWipe(vol, options.target);
      }
      isWiping := false;
      out := Completed(WipeResult(t.errors == [], t.filesWiped, t.bytesWiped, verified, t.errors));
    }

    /** The body of `wipeData`'s loop for file `f`, after its cancel check: lines of accounting around `wipeFile`. */
    method WipeNext(t: Tally, f: string, m: WipeMethod, passes: int, rng: Entropy, cancel: Option<nat>)
      returns (t': Tally)
      requires shouldCancel == (cancel.Some? && cancel.value < t.step + 1)
      modifies this`shouldCancel
      ensures t' == After(t, f, WipeFileRun(t.fs, f, m, passes, rng, cancel, t.step + 1))
      ensures shouldCancel == (cancel.Some? && cancel.value < t'.step)
    {
      var size := SizeOf(t.fs, f);
      var fs', step, reported, error := WipeFile(t.fs, f, m, passes, rng, cancel, t.step + 1);
      if error.None? {
        t' := Tally(fs', step, t.filesWiped + 1, t.bytesWiped + size, t.errors, t.aborted);
      } else {
        t' := Tally(fs', step, t.filesWiped, t.bytesWiped, t.errors + [FileFailed(f, error.value)], t.aborted);
      }
    }

    /** The `for` loop of `wipeData` over the listed files. */
    method WipeEach(fs: Fs, files: seq<string>, m: WipeMethod, passes: int, rng: Entropy, cancel: Option<nat>)
      returns (t: Tally)
      requires !shouldCancel
      modifies this`shouldCancel
      ensures t == WipeFiles(Tally(fs, 0, 0, 0, [], false), files, m, passes, rng, cancel)
      ensures shouldCancel == (cancel.Some? && cancel.value < t.step)
    {
      ghost var final := WipeFiles(Tally(fs, 0, 0, 0, [], false), files, m, passes, rng, cancel);
      t := Tally(fs, 0, 0, 0, [], false);
      var i := 0;
      while i < |files|
        invariant i <= |files| && !t.aborted
        invariant shouldCancel == (cancel.Some? && cancel.value < t.step)
        invariant WipeFiles(t, files[i..], m, passes, rng, cancel) == final
      {
        var stop := CheckCancel(cancel, t.step);
        if stop {
          return t.(step := t.step + 1, errors := t.errors + [Aborted(CancelledByUser)], aborted := true);
        }
        var f := files[i];
        ghost var run := WipeFileRun(t.fs, f, m, passes, rng, cancel, t.step + 1);
        FileStep(t, files[i..], m, passes, rng, cancel, f, run);
        assert files[i..][1..] == files[i + 1..];
        t := WipeNext(t, f, m, passes, rng, cancel);
        i := i + 1;
      }
      assert files[i..] == [];
    }
  }
}
