/**
 * What the mobile wiping service promises, proved about the model in
 * `MobileWipe`: the pass schedules, the bytes one overwrite leaves behind,
 * the fate of a single file, the accounting of a run, and three places
 * where the service does not do what it evidently means to.
 */
module MobileProperties {
  import opened Common
  import opened MobileFs
  import opened MobileWipe
  import BlockWrites

  // ----- pass schedules -----

  /** A `passes` option of 0 is falsy: it counts as no option at all. */
  lemma CustomZeroIgnored(m: WipeMethod)
    ensures PassesForMethod(m, Some(0)) == PassesForMethod(m, None)
  {
  }

  /** Without an option: DoD 3, NIST 1, Gutmann 35, random 7, zero 1, anything else 3. */
  lemma PassesTable(name: string)
    ensures PassesForMethod(Dod, None) == 3 && PassesForMethod(Nist, None) == 1
    ensures PassesForMethod(Gutmann, None) == 35 && PassesForMethod(RandomData, None) == 7
    ensures PassesForMethod(Zero, None) == 1 && PassesForMethod(Unlisted(name), None) == 3
  {
  }

  /**
   * The bytes of each pass: DoD is zeros, then ones, then a fresh random
   * buffer; `zero` is always zeros; Gutmann fills with its table entry;
   * the other methods draw a random buffer.
   */
  lemma PatternBytes(m: WipeMethod, pass: nat, rng: Entropy, draw: nat)
    requires pass >= 1
    ensures var r := PatternForPass(m, pass, rng, draw);
      |r| == PATTERN_SIZE
      && (m == Zero || (m == Dod && pass == 1) ==> forall i :: 0 <= i < |r| ==> r[i] == 0x00)
      && (m == Dod && pass == 2 ==> forall i :: 0 <= i < |r| ==> r[i] == 0xFF)
      && (m == Gutmann ==> forall i :: 0 <= i < |r| ==> r[i] == GUTMANN_TABLE[(pass - 1) % 16])
      && (m.Nist? || m.RandomData? || m.Unlisted? || (m == Dod && pass >= 3) ==>
            forall i :: 0 <= i < |r| ==> r[i] == rng(draw, i))
  {
  }

  /** The Gutmann fill bytes cycle with period 16, so a 35-pass run repeats table entries. */
  lemma GutmannPeriodic(pass: nat)
    requires pass >= 1
    ensures GutmannPattern(pass + 16) == GutmannPattern(pass)
  {
    assert (pass + 16 - 1) % 16 == (pass - 1) % 16;
  }

  // ----- overwriteFile -----

  lemma ModBelow(j: nat, len: nat)
    requires j < len
    ensures j % len == j
  {
  }

  lemma ModShift(j: nat, len: nat)
    requires 0 < len <= j
    ensures (j - len) % len == j % len
  {
    var q := j / len;
    BlockWrites.DivFloor(j, len);
    BlockWrites.FitsBelow(1, len, j);
    BlockWrites.MulSucc(q - 1, len);
    BlockWrites.BlockMisses(q - 1, len, j - len);
  }

  /**
   * Every chunk starts again at the pattern's first byte and all but the
   * last are whole copies, so byte `j` of what is still due is byte
   * `j % |pattern|` of the pattern, however much was written before.
   */
  lemma {:induction false} ChunksFromAt(pattern: seq<Byte>, written: nat, size: nat, j: nat)
    requires |pattern| > 0 && written <= size && j < size - written
    ensures ChunksFrom(pattern, written, size)[j] == pattern[j % |pattern|]
    decreases j
  {
    var len := |pattern|;
    if j < len {
      ModBelow(j, len);
    } else {
      assert Min(len, size - written) == len;
      ModShift(j, len);
      ChunksFromAt(pattern, written + len, size, j - len);
    }
  }

  /**
   * One overwrite appends exactly `size` bytes, and they repeat the one
   * pattern buffer from its start: byte `i` is `pattern[i % |pattern|]`.
   */
  lemma ChunkedRepeats(pattern: seq<Byte>, size: nat)
    requires |pattern| > 0
    ensures |Chunked(pattern, size)| == size
    ensures forall i :: 0 <= i < size ==> Chunked(pattern, size)[i] == pattern[i % |pattern|]
  {
    forall i | 0 <= i < size
      ensures Chunked(pattern, size)[i] == pattern[i % |pattern|]
    {
      ChunksFromAt(pattern, 0, size, i);
    }
  }

  lemma TempDiffers(path: string)
    ensures TempOf(path) != path
  {
    assert |TempOf(path)| == |path| + 4;
  }

  /**
   * What one `overwriteFile` call does to the file system: directories are
   * untouched, the file survives a failure, and a success leaves `path`
   * holding whatever `<path>.tmp` held followed by the appended chunks,
   * with `<path>.tmp` gone and every other file as it was.
   */
  lemma OverwriteFacts(fs: Fs, path: string, pattern: seq<Byte>, size: nat)
    requires |pattern| > 0
    ensures var e := Overwrite(fs, path, pattern, size);
      e.fs.dirs == fs.dirs
      && (path in fs.files ==> path in e.fs.files)
      && (e.error.None? ==>
            TempOf(path) !in e.fs.files
            && e.fs.files.Keys == fs.files.Keys + {path} - {TempOf(path)}
            && e.fs.files[path] == Content(fs, TempOf(path)) + Chunked(pattern, size))
      && (forall q :: q in fs.files && q != path && q != TempOf(path) ==>
            q in e.fs.files && e.fs.files[q] == fs.files[q])
  {
    TempDiffers(path);
    if size == 0 {
      assert Content(fs, TempOf(path)) + Chunked(pattern, size) == Content(fs, TempOf(path));
    }
  }

  // ----- Findings: the temporary file -----

  /**
   * As written, an empty file gets no append, so the `moveFile` that
   * follows renames a temporary file that was never created.
   */
  lemma EmptyFileNotOverwritten(fs: Fs, path: string, pattern: seq<Byte>)
    requires |pattern| > 0 && TempOf(path) !in fs.files
    ensures Overwrite(fs, path, pattern, 0) == Effect(fs, Some(NoSuchFile(TempOf(path))))
  {
  }

  /** Hence an empty file is never wiped: its first pass fails and the file stays. */
  lemma EmptyFileNeverWiped(fs: Fs, path: string, m: WipeMethod, passes: int, rng: Entropy,
                            cancel: Option<nat>, step: nat)
    requires path in fs.files && fs.files[path] == [] && TempOf(path) !in fs.files
    requires passes >= 1 && !CancelSeen(cancel, step)
    ensures var r := WipeFileRun(fs, path, m, passes, rng, cancel, step);
      r.error == Some(Io(NoSuchFile(TempOf(path)))) && path in r.fs.files && r.reported == [1]
  {
    var pattern := PatternForPass(m, 1, rng, step);
    EmptyFileNotOverwritten(fs, path, pattern);
    PassStep(fs, path, m, 0, 1, passes, rng, cancel, step, [], Overwrite(fs, path, pattern, 0));
  }

  /**
   * As written, `appendFile` extends a `<path>.tmp` that is already there,
   * so its old bytes end up at the front of the overwritten file, which is
   * then longer than the original.
   */
  lemma StaleTempPrepended(fs: Fs, path: string, pattern: seq<Byte>, size: nat)
    requires |pattern| > 0 && Wf(fs) && path !in fs.dirs
    requires TempOf(path) in fs.files && fs.files[TempOf(path)] != []
    ensures var e := Overwrite(fs, path, pattern, size);
      e.error.None? && e.fs.files[path] == fs.files[TempOf(path)] + Chunked(pattern, size)
      && |e.fs.files[path]| > size
  {
    OverwriteFacts(fs, path, pattern, size);
  }

  /**
   * `overwriteFile` as evidently intended: the temporary file is written
   * afresh with exactly the pattern bytes, even for an empty file, and
   * then renamed over `path`.
   */
  function CorrectedOverwrite(fs: Fs, path: string, pattern: seq<Byte>, size: nat): (e: Effect)
    requires |pattern| > 0
    ensures e.fs.dirs == fs.dirs
    ensures e.error.None? <==> TempOf(path) !in fs.dirs && path !in fs.dirs
    ensures e.error.None? ==> e.fs.files == (fs.files - {TempOf(path)})[path := Chunked(pattern, size)]
  {
    var temp := TempOf(path);
    if temp in fs.dirs then Effect(fs, Some(IsADirectory(temp)))
    else
      var fs1 := fs.(files := fs.files[temp := Chunked(pattern, size)]);
      match Move(fs1, temp, path)
      case Failed(e) => Effect(fs1, Some(e))
      case Ok(fs2) => Effect(fs2, None)
  }

  /**
   * The corrected overwrite of a regular file always succeeds and leaves
   * it holding exactly `size` bytes, the pattern repeated, with no
   * temporary file left behind.
   */
  lemma CorrectedOverwriteExact(fs: Fs, path: string, pattern: seq<Byte>, size: nat)
    requires |pattern| > 0 && Wf(fs) && path in fs.files && TempOf(path) !in fs.dirs
    ensures var e := CorrectedOverwrite(fs, path, pattern, size);
      e.error.None? && TempOf(path) !in e.fs.files && |e.fs.files[path]| == size
      && forall i :: 0 <= i < size ==> e.fs.files[path][i] == pattern[i % |pattern|]
  {
    TempDiffers(path);
    ChunkedRepeats(pattern, size);
  }

  // ----- wipeFile -----

  /** The pass numbers `lo, lo + 1, ..., hi`. */
  function Range(lo: nat, hi: int): (r: seq<nat>)
    ensures |r| == (if lo <= hi then hi - lo + 1 else 0)
    ensures forall i :: 0 <= i < |r| ==> r[i] == lo + i
    decreases if lo <= hi then hi - lo + 1 else 0
  {
    if lo > hi then [] else [lo] + Range(lo + 1, hi)
  }

  /**
   * What one overwrite, and so any run of passes, does to the rest of the
   * file system: directories stay, the target is not removed, and every
   * file but the target and its `.tmp` file keeps its contents.
   */
  predicate Kept(a: Fs, b: Fs, path: string) {
    b.dirs == a.dirs && (path in a.files ==> path in b.files)
    && forall q :: q in a.files && q != path && q != TempOf(path) ==> q in b.files && b.files[q] == a.files[q]
  }

  /** What a successful overwrite, or run of passes, leaves: every file but the target was there before, unchanged. */
  predicate OnlyPath(a: Fs, b: Fs, path: string) {
    forall q :: q in b.files && q != path ==> q in a.files && b.files[q] == a.files[q]
  }

  lemma KeptTrans(a: Fs, b: Fs, c: Fs, path: string)
    requires Kept(a, b, path) && Kept(b, c, path)
    ensures Kept(a, c, path)
  {
  }

  lemma OnlyPathTrans(a: Fs, b: Fs, c: Fs, path: string)
    requires OnlyPath(a, b, path) && OnlyPath(b, c, path)
    ensures OnlyPath(a, c, path)
  {
  }

  /** The part of `OverwriteFacts` a sequence of passes needs. */
  lemma OverwriteStep(fs: Fs, path: string, pattern: seq<Byte>, size: nat)
    requires |pattern| > 0
    ensures var e := Overwrite(fs, path, pattern, size);
      Kept(fs, e.fs, path) && (e.error.None? ==> OnlyPath(fs, e.fs, path))
  {
    OverwriteFacts(fs, path, pattern, size);
  }

  /** What passes `pass..passes` keep, however they end (see `PassesKept`). */
  predicate KeptFrom(fs: Fs, path: string, m: WipeMethod, size: nat, pass: nat, passes: int, rng: Entropy,
                     cancel: Option<nat>, step: nat, reported: seq<nat>)
    requires pass >= 1
  {
    var r := PassesFrom(fs, path, m, size, pass, passes, rng, cancel, step, reported);
    Kept(fs, r.fs, path) && (r.error.None? ==> OnlyPath(fs, r.fs, path))
  }

  /**
   * Passes `pass..passes` leave directories alone, never remove the file,
   * and change no other file but its `.tmp` file, however they end; when
   * they end without error they have created no file but the target and
   * left every other file as it was.
   */
  lemma {:induction false} PassesKept(fs: Fs, path: string, m: WipeMethod, size: nat, pass: nat, passes: int,
                                      rng: Entropy, cancel: Option<nat>, step: nat, reported: seq<nat>)
    requires pass >= 1
    ensures KeptFrom(fs, path, m, size, pass, passes, rng, cancel, step, reported)
    decreases if pass <= passes then passes - pass + 1 else 0
  {
    if pass <= passes && !CancelSeen(cancel, step) {
      var e := Overwrite(fs, path, PatternForPass(m, pass, rng, step), size);
      if e.error.None? {
        PassesKept(e.fs, path, m, size, pass + 1, passes, rng, cancel, step + 1, reported + [pass]);
      }
      PassKeptStep(fs, path, m, size, pass, passes, rng, cancel, step, reported, e);
    } else {
      PassesStop(fs, path, m, size, pass, passes, rng, cancel, step, reported);
    }
  }

  /** Passes that end before writing leave the file system as it was, so they keep everything. */
  lemma PassesStop(fs: Fs, path: string, m: WipeMethod, size: nat, pass: nat, passes: int, rng: Entropy,
                   cancel: Option<nat>, step: nat, reported: seq<nat>)
    requires pass >= 1 && (pass > passes || CancelSeen(cancel, step))
    ensures PassesFrom(fs, path, m, size, pass, passes, rng, cancel, step, reported).fs == fs
    ensures KeptFrom(fs, path, m, size, pass, passes, rng, cancel, step, reported)
  {
  }

  /** When no pass is left, nothing more is reported; when cancellation is seen first, the run fails. */
  lemma PassesEnd(fs: Fs, path: string, m: WipeMethod, size: nat, pass: nat, passes: int, rng: Entropy,
                  cancel: Option<nat>, step: nat, reported: seq<nat>)
    requires pass >= 1 && (pass > passes || CancelSeen(cancel, step))
    ensures var r := PassesFrom(fs, path, m, size, pass, passes, rng, cancel, step, reported);
      r.error.None? ==> r.reported == reported + Range(pass, passes)
  {
    if pass > passes {
      assert reported + Range(pass, passes) == reported;
    }
  }

  /** One pass of `PassesKept`, given what the later passes keep. */
  lemma PassKeptStep(fs: Fs, path: string, m: WipeMethod, size: nat, pass: nat, passes: int, rng: Entropy,
                     cancel: Option<nat>, step: nat, reported: seq<nat>, e: Effect)
    requires 1 <= pass <= passes && !CancelSeen(cancel, step)
    requires e == Overwrite(fs, path, PatternForPass(m, pass, rng, step), size)
    requires e.error.None? ==> KeptFrom(e.fs, path, m, size, pass + 1, passes, rng, cancel, step + 1, reported + [pass])
    ensures KeptFrom(fs, path, m, size, pass, passes, rng, cancel, step, reported)
  {
    OverwriteStep(fs, path, PatternForPass(m, pass, rng, step), size);
    PassStep(fs, path, m, size, pass, passes, rng, cancel, step, reported, e);
    if e.error.None? {
      var r := PassesFrom(e.fs, path, m, size, pass + 1, passes, rng, cancel, step + 1, reported + [pass]);
      KeptTrans(fs, e.fs, r.fs, path);
      if r.error.None? {
        OnlyPathTrans(fs, e.fs, r.fs, path);
      }
    }
  }

  /** A run that reported `pass` first and then `pass + 1..passes` reported `pass..passes`. */
  lemma ReportedStep(r: FileRun, reported: seq<nat>, pass: nat, passes: int)
    requires pass <= passes
    requires r.error.None? ==> r.reported == (reported + [pass]) + Range(pass + 1, passes)
    ensures r.error.None? ==> r.reported == reported + Range(pass, passes)
  {
    assert Range(pass, passes) == [pass] + Range(pass + 1, passes);
    AppendAssoc(reported, [pass], Range(pass + 1, passes));
  }

  /** Passes `pass..passes` without error report every pass number, in order. */
  lemma {:induction false} PassesDone(fs: Fs, path: string, m: WipeMethod, size: nat, pass: nat, passes: int,
                                      rng: Entropy, cancel: Option<nat>, step: nat, reported: seq<nat>)
    requires pass >= 1
    ensures var r := PassesFrom(fs, path, m, size, pass, passes, rng, cancel, step, reported);
      r.error.None? ==> r.reported == reported + Range(pass, passes)
    decreases if pass <= passes then passes - pass + 1 else 0
  {
    if pass <= passes && !CancelSeen(cancel, step) {
      var e := Overwrite(fs, path, PatternForPass(m, pass, rng, step), size);
      if e.error.None? {
        PassesDone(e.fs, path, m, size, pass + 1, passes, rng, cancel, step + 1, reported + [pass]);
      }
      PassDoneStep(fs, path, m, size, pass, passes, rng, cancel, step, reported, e);
    } else {
      PassesEnd(fs, path, m, size, pass, passes, rng, cancel, step, reported);
    }
  }

  /** One pass of `PassesDone`, given what the later passes report. */
  lemma PassDoneStep(fs: Fs, path: string, m: WipeMethod, size: nat, pass: nat, passes: int, rng: Entropy,
                     cancel: Option<nat>, step: nat, reported: seq<nat>, e: Effect)
    requires 1 <= pass <= passes && !CancelSeen(cancel, step)
    requires e == Overwrite(fs, path, PatternForPass(m, pass, rng, step), size)
    requires e.error.None? ==>
        var r := PassesFrom(e.fs, path, m, size, pass + 1, passes, rng, cancel, step + 1, reported + [pass]);
        r.error.None? ==> r.reported == (reported + [pass]) + Range(pass + 1, passes)
    ensures var r := PassesFrom(fs, path, m, size, pass, passes, rng, cancel, step, reported);
      r.error.None? ==> r.reported == reported + Range(pass, passes)
  {
    PassStep(fs, path, m, size, pass, passes, rng, cancel, step, reported, e);
    if e.error.None? {
      ReportedStep(PassesFrom(e.fs, path, m, size, pass + 1, passes, rng, cancel, step + 1, reported + [pass]),
                   reported, pass, passes);
    }
  }

  /**
   * One `wipeFile` call: directories are untouched; on a regular file it
   * succeeds exactly when the file is gone afterwards, having run passes
   * 1..passes in order, and it creates no file on the way.  Whatever the
   * outcome, files other than the target and its `.tmp` file keep their
   * contents; after a success every file left was there before, unchanged.
   */
  lemma WipeFileFacts(fs: Fs, path: string, m: WipeMethod, passes: int, rng: Entropy,
                      cancel: Option<nat>, step: nat)
    ensures var r := WipeFileRun(fs, path, m, passes, rng, cancel, step);
      r.fs.dirs == fs.dirs
      && (path in fs.files ==> (r.error.None? <==> path !in r.fs.files))
      && (r.error.None? ==> path in fs.files && r.fs.files.Keys <= fs.files.Keys - {path}
                            && r.reported == Range(1, passes))
      && (forall q :: q in fs.files && q != path && q != TempOf(path) ==> q in r.fs.files && r.fs.files[q] == fs.files[q])
      && (r.error.None? ==> forall q :: q in r.fs.files ==> q in fs.files && r.fs.files[q] == fs.files[q])
  {
    if path in fs.files {
      PassesKept(fs, path, m, |fs.files[path]|, 1, passes, rng, cancel, step, []);
      PassesDone(fs, path, m, |fs.files[path]|, 1, passes, rng, cancel, step, []);
      assert [] + Range(1, passes) == Range(1, passes);
    }
  }

  // ----- wipeData -----

  /**
   * The file loop: directories are untouched and errors only accumulate.
   * Unless cancelled, each file is either counted as wiped or gives one
   * error; a cancel ends the loop with a `CancelledByUser` error; and a
   * loop that added no error removed every file it was given.
   */
  lemma {:induction false} WipeFilesFacts(t: Tally, files: seq<string>, m: WipeMethod, passes: int,
                                          rng: Entropy, cancel: Option<nat>)
    requires !t.aborted
    ensures var r := WipeFiles(t, files, m, passes, rng, cancel);
      r.fs.dirs == t.fs.dirs
      && |r.errors| >= |t.errors| && r.errors[..|t.errors|] == t.errors
      && r.filesWiped >= t.filesWiped && r.bytesWiped >= t.bytesWiped
      && (r.aborted ==> |r.errors| > |t.errors| && r.errors[|r.errors| - 1] == Aborted(CancelledByUser))
      && (!r.aborted ==> (r.filesWiped - t.filesWiped) + (|r.errors| - |t.errors|) == |files|)
      && (!r.aborted && |r.errors| == |t.errors| ==>
            r.fs.files.Keys <= t.fs.files.Keys && forall f :: f in files ==> f !in r.fs.files)
    decreases |files|
  {
    if |files| == 0 || CancelSeen(cancel, t.step) {
    } else {
      var f := files[0];
      var run := WipeFileRun(t.fs, f, m, passes, rng, cancel, t.step + 1);
      WipeFileFacts(t.fs, f, m, passes, rng, cancel, t.step + 1);
      FileStep(t, files, m, passes, rng, cancel, f, run);
      var t1 := After(t, f, run);
      WipeFilesFacts(t1, files[1..], m, passes, rng, cancel);
      var r := WipeFiles(t1, files[1..], m, passes, rng, cancel);
      assert t1.errors[..|t.errors|] == t.errors;
      assert r.errors[..|t.errors|] == r.errors[..|t1.errors|][..|t.errors|];
      if !r.aborted && |r.errors| == |t.errors| {
        assert run.error.None?;
        forall g | g in files
          ensures g !in r.fs.files
        {
          if g != f {
            assert g in files[1..];
          }
        }
      }
    }
  }

  /** `q` is neither one of `files` nor the `.tmp` file of one. */
  predicate Untouched(q: string, files: seq<string>) {
    forall i :: 0 <= i < |files| ==> q != files[i] && q != TempOf(files[i])
  }

  /** However the loop ends, a file that is neither listed nor the `.tmp` file of a listed one keeps its contents. */
  lemma {:induction false} WipeFilesFrame(t: Tally, files: seq<string>, m: WipeMethod, passes: int,
                                          rng: Entropy, cancel: Option<nat>)
    ensures var r := WipeFiles(t, files, m, passes, rng, cancel);
      forall q :: q in t.fs.files && Untouched(q, files) ==> q in r.fs.files && r.fs.files[q] == t.fs.files[q]
    decreases |files|
  {
    if |files| > 0 && !CancelSeen(cancel, t.step) {
      var f := files[0];
      var run := WipeFileRun(t.fs, f, m, passes, rng, cancel, t.step + 1);
      WipeFileFacts(t.fs, f, m, passes, rng, cancel, t.step + 1);
      FileStep(t, files, m, passes, rng, cancel, f, run);
      var t1 := After(t, f, run);
      WipeFilesFrame(t1, files[1..], m, passes, rng, cancel);
      forall q | q in t.fs.files && Untouched(q, files)
        ensures q in t1.fs.files && t1.fs.files[q] == t.fs.files[q] && Untouched(q, files[1..])
      {
        assert q != files[0] && q != TempOf(files[0]);
        forall i | 0 <= i < |files[1..]|
          ensures q != files[1..][i] && q != TempOf(files[1..][i])
        {
          assert files[1..][i] == files[i + 1];
        }
      }
    }
  }

  /** Sizes that agree on every listed path give the same total. */
  lemma {:induction false} TotalBytesSame(a: Fs, b: Fs, files: seq<string>)
    requires forall i :: 0 <= i < |files| ==> SizeOf(a, files[i]) == SizeOf(b, files[i])
    ensures TotalBytes(a, files) == TotalBytes(b, files)
    decreases |files|
  {
    if |files| > 0 {
      assert forall i :: 0 <= i < |files[1..]| ==> files[1..][i] == files[i + 1];
      TotalBytesSame(a, b, files[1..]);
    }
  }

  /**
   * A loop that added no error found every listed file in place, left
   * every surviving file as it was, and counted exactly the bytes
   * `calculateTotalBytes` reports for the list.
   */
  lemma {:induction false} WipeFilesClean(t: Tally, files: seq<string>, m: WipeMethod, passes: int,
                                          rng: Entropy, cancel: Option<nat>)
    requires !t.aborted
    ensures var r := WipeFiles(t, files, m, passes, rng, cancel);
      !r.aborted && |r.errors| == |t.errors| ==>
        (forall i :: 0 <= i < |files| ==> files[i] in t.fs.files)
        && (forall q :: q in r.fs.files ==> q in t.fs.files && r.fs.files[q] == t.fs.files[q])
        && r.bytesWiped == t.bytesWiped + TotalBytes(t.fs, files)
    decreases |files|
  {
    if |files| > 0 && !CancelSeen(cancel, t.step) {
      var f := files[0];
      var run := WipeFileRun(t.fs, f, m, passes, rng, cancel, t.step + 1);
      WipeFileFacts(t.fs, f, m, passes, rng, cancel, t.step + 1);
      FileStep(t, files, m, passes, rng, cancel, f, run);
      var t1 := After(t, f, run);
      WipeFilesClean(t1, files[1..], m, passes, rng, cancel);
      WipeFilesFacts(t1, files[1..], m, passes, rng, cancel);
      var r := WipeFiles(t1, files[1..], m, passes, rng, cancel);
      if !r.aborted && |r.errors| == |t.errors| {
        assert run.error.None?;
        forall i | 1 <= i < |files|
          ensures files[i] in t.fs.files && SizeOf(t1.fs, files[i]) == SizeOf(t.fs, files[i])
        {
          assert files[i] == files[1..][i - 1];
        }
        assert forall i :: 0 <= i < |files[1..]| ==> files[1..][i] == files[i + 1];
        TotalBytesSame(t1.fs, t.fs, files[1..]);
      }
    }
  }

  /** `success` is true exactly when no error was recorded; cancelling or a failed file makes it false. */
  lemma RunSuccessIffNoErrors(fs: Fs, options: Options, rng: Entropy, cancel: Option<nat>)
    ensures var run := WipeRun(fs, options, rng, cancel);
      (run.result.success <==> run.result.errors == [])
      && (run.result.verificationPassed ==> options.verify)
  {
    match ListFiles(fs, options.target)
    case Unreachable(_) =>
    case Listed(files) =>
      var passes := PassesForMethod(options.scheme, options.passes);
      WipeFilesFacts(Tally(fs, 0, 0, 0, [], false), files, options.scheme, passes, rng, cancel);
  }

  /** Without cancellation every listed file is either counted as wiped or reported as failed. */
  lemma RunAccounts(fs: Fs, options: Options, rng: Entropy, files: seq<string>)
    requires ListFiles(fs, options.target) == Listed(files)
    ensures var run := WipeRun(fs, options, rng, None);
      run.result.filesWiped + |run.result.errors| == |files|
      && forall i :: 0 <= i < |run.result.errors| ==> run.result.errors[i].FileFailed?
  {
    var passes := PassesForMethod(options.scheme, options.passes);
    var t0 := Tally(fs, 0, 0, 0, [], false);
    WipeFilesNoAbort(t0, files, options.scheme, passes, rng);
    WipeFilesFacts(t0, files, options.scheme, passes, rng, None);
  }

  /** Without a cancel nothing but per-file errors is recorded. */
  lemma {:induction false} WipeFilesNoAbort(t: Tally, files: seq<string>, m: WipeMethod, passes: int, rng: Entropy)
    requires !t.aborted && forall i :: 0 <= i < |t.errors| ==> t.errors[i].FileFailed?
    ensures var r := WipeFiles(t, files, m, passes, rng, None);
      !r.aborted && forall i :: 0 <= i < |r.errors| ==> r.errors[i].FileFailed?
    decreases |files|
  {
    if |files| > 0 {
      var run := WipeFileRun(t.fs, files[0], m, passes, rng, None, t.step + 1);
      FileStep(t, files, m, passes, rng, None, files[0], run);
      WipeFilesNoAbort(After(t, files[0], run), files[1..], m, passes, rng);
    }
  }

  /** A cancel raised before the first file ends the run with nothing touched. */
  lemma CancelBeforeFirstFile(fs: Fs, options: Options, rng: Entropy, files: seq<string>)
    requires ListFiles(fs, options.target) == Listed(files) && files != []
    ensures WipeRun(fs, options, rng, Some(0))
         == Run(fs, 1, WipeResult(false, 0, 0, false, [Aborted(CancelledByUser)]))
  {
  }

  // ----- getFilesToWipe -----

  /** `getFilesToWipe` lists only regular files, each the target itself or inside it. */
  lemma {:induction false} ListedFiles(fs: Fs, p: string)
    ensures ListFiles(fs, p).Listed? ==>
              forall x :: x in ListFiles(fs, p).paths ==> x in fs.files && (x == p || Under(x, p))
    decreases Height(fs, p), 1
  {
    if p !in fs.files && p in fs.dirs {
      ListedEach(fs, p, fs.dirs[p]);
    }
  }

  lemma {:induction false} ListedEach(fs: Fs, p: string, names: seq<string>)
    requires p in fs.dirs
    ensures ListEach(fs, p, names).Listed? ==>
              forall x :: x in ListEach(fs, p, names).paths ==> x in fs.files && Under(x, p)
    decreases Height(fs, p), 0, |names|
  {
    if names != [] {
      ChildLower(fs, p, names[0]);
      var c := Child(p, names[0]);
      ListedFiles(fs, c);
      ListedEach(fs, p, names[1..]);
      if ListFiles(fs, c).Listed? {
        forall x | x in ListFiles(fs, c).paths
          ensures Under(x, p)
        {
          UnderChild(x, p, names[0]);
        }
      }
    }
  }

  // ----- Finding: verifying a directory target -----

  /**
   * As written, `verifyWipe` asks whether the target still exists; the run
   * only unlinks files, so a directory target is never verified, however
   * the run went.
   */
  lemma DirectoryTargetNeverVerified(fs: Fs, options: Options, rng: Entropy, cancel: Option<nat>)
    requires options.target in fs.dirs
    ensures !WipeRun(fs, options, rng, cancel).result.verificationPassed
  {
    match ListFiles(fs, options.target)
    case Unreachable(_) =>
    case Listed(files) =>
      var passes := PassesForMethod(options.scheme, options.passes);
      WipeFilesFacts(Tally(fs, 0, 0, 0, [], false), files, options.scheme, passes, rng, cancel);
  }

  /** Verification as evidently intended: none of the listed files exists any more. */
  predicate ListedGone(fs: Fs, files: seq<string>) {
    forall f :: f in files ==> !Exists(fs, f)
  }

  /** A successful run removes every file it listed, so the intended verification passes. */
  lemma SuccessVerifiesListed(fs: Fs, options: Options, rng: Entropy, cancel: Option<nat>, files: seq<string>)
    requires Wf(fs) && ListFiles(fs, options.target) == Listed(files)
    ensures WipeRun(fs, options, rng, cancel).result.success ==> ListedGone(WipeRun(fs, options, rng, cancel).fs, files)
  {
    var passes := PassesForMethod(options.scheme, options.passes);
    WipeFilesFacts(Tally(fs, 0, 0, 0, [], false), files, options.scheme, passes, rng, cancel);
    ListedFiles(fs, options.target);
  }
}
