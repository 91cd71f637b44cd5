/**
 * What `wipe_file`, `wipe_directory` and `verify_wipe` of
 * secure-data-wiper/utils/wipe_engine.py promise, stated over the outcome
 * functions of `WipeEngine` (which the engine's methods are proved to
 * compute).
 */
module EngineProperties {
  import opened Common
  import opened WipePatterns
  import opened WipePlan
  import opened WipeEngine

  // ----- wipe_file -----

  /**
   * `wipe_file` touches only its own file: every other path keeps its bytes,
   * the directories stay, a success removes the file under both its old and
   * its random name, and a failure on an existing file leaves it in place,
   * at its old size, with the stop flag set.
   */
  lemma WipeFileTouchesOnlyItsFile(st: EngineState, path: Path, pattern: seq<PassSpec>, rng: Entropy,
                                   sha256: Sha256, seed: seq<Byte>, interrupt: Interrupts)
    ensures var r := WipeFileOutcome(st, path, pattern, rng, sha256, seed, interrupt);
      var newName := RandomFilename(path, sha256, seed);
      && r.state.dirs == st.dirs
      && (forall p :: p != path && p != newName ==>
            (p in r.state.files <==> p in st.files) && (p in st.files ==> r.state.files[p] == st.files[p]))
      && (r.ok ==> path in st.files && path !in r.state.files && newName !in r.state.files)
      && (!r.ok && path in st.files ==>
            path in r.state.files && |r.state.files[path]| == |st.files[path]| && r.state.stopFlag)
      && (path !in st.files ==> r == FileResult(false, st))
  {
    if path in st.files {
      var plan := Plan(pattern, rng, |st.files[path]|);
      var c := FirstStop(st.stopFlag, interrupt, st.flagReads, |plan|);
      if c < |plan| {
        assert |Apply(plan[..c], st.files[path])| == |st.files[path]|;
      }
    }
  }

  /**
   * A stop requested before `wipe_file` starts a non-empty pattern: the
   * first flag read returns False and no byte of the file changes.
   */
  lemma StopBeforeWipe(st: EngineState, path: Path, pattern: seq<PassSpec>, rng: Entropy,
                       sha256: Sha256, seed: seq<Byte>, interrupt: Interrupts)
    requires path in st.files && st.stopFlag && |pattern| > 0
    ensures WipeFileOutcome(st, path, pattern, rng, sha256, seed, interrupt)
         == FileResult(false, st.(flagReads := st.flagReads + 1))
  {
    var plan := Plan(pattern, rng, |st.files[path]|);
    PlanFromCons(pattern, 0, rng, |st.files[path]|);
    assert |plan| > 0;
    assert plan[..0] == [];
    assert st.files[path := st.files[path]] == st.files;
  }

  /** The status after the chunks of a pass from `written` on is the status it started with. */
  ghost predicate KeepsStatus(spec: PassSpec, passNum: nat, total: nat, rng: Entropy,
                              size: nat, written: nat, pos: nat, init: Status)
    requires total > 0
  {
    StatusAfter(PassSteps(spec, passNum, total, rng, size, written, pos), init) == init
  }

  lemma KeepsStatusStep(spec: PassSpec, passNum: nat, total: nat, rng: Entropy,
                        size: nat, written: nat, pos: nat, init: Status, chunk: nat, data: seq<Byte>)
    requires total > 0 && written < size && chunk == Min(4096, size - written)
    requires data == if spec.RandomData? then Random(rng, passNum, written, chunk) else Take(spec.data, chunk)
    requires KeepsStatus(spec, passNum, total, rng, size, written + chunk, pos + |data|, init)
    ensures KeepsStatus(spec, passNum, total, rng, size, written, pos, init)
  {
    PassStepsCons(spec, passNum, total, rng, size, written, pos, chunk, data);
    StatusAfterChunk(WriteChunk(pos, data, written + chunk, Progress(passNum, written + chunk, size, total)),
                     PassSteps(spec, passNum, total, rng, size, written + chunk, pos + |data|), init);
  }

  /** The status after a pass's chunks is the status it started with. */
  lemma {:induction false} PassKeepsStatus(spec: PassSpec, passNum: nat, total: nat, rng: Entropy,
                                           size: nat, written: nat, pos: nat, init: Status)
    requires total > 0
    ensures StatusAfter(PassSteps(spec, passNum, total, rng, size, written, pos), init) == init
    decreases size - written
  {
    if written < size {
      var chunk := Min(4096, size - written);
      var data := if spec.RandomData? then Random(rng, passNum, written, chunk) else Take(spec.data, chunk);
      PassKeepsStatus(spec, passNum, total, rng, size, written + chunk, pos + |data|, init);
      KeepsStatusStep(spec, passNum, total, rng, size, written, pos, init, chunk, data);
    }
  }

  /** After a whole plan the status names the last pass, "Pass n/n". */
  lemma PlanEndsAtLastPass(pattern: seq<PassSpec>, rng: Entropy, size: nat, init: Status)
    requires |pattern| > 0
    ensures StatusAfter(Plan(pattern, rng, size), init) == PassStatus(|pattern|, |pattern|)
  {
    var P := |pattern|;
    var front := PlanFromEndsWithLast(pattern, 0, rng, size);
    var last := PassSteps(pattern[P - 1], P, P, rng, size, 0, 0);
    StatusAfterAppend(front, [BeginPass(P, P)] + last, init);
    var mid := StatusAfter(front, init);
    StatusAfterAppend([BeginPass(P, P)], last, mid);
    assert [BeginPass(P, P)][..0] == [];
    PassKeepsStatus(pattern[P - 1], P, P, rng, size, 0, 0, PassStatus(P, P));
  }

  /**
   * Without a stop request, `wipe_file` on an existing file succeeds: the
   * file is gone, the status reads "Pass n/n" and, for a non-empty file,
   * the progress is exactly 100.
   */
  lemma WipeFileWithoutStop(st: EngineState, path: Path, pattern: seq<PassSpec>, rng: Entropy,
                            sha256: Sha256, seed: seq<Byte>, interrupt: Interrupts)
    requires path in st.files && !st.stopFlag && forall k :: !interrupt(k)
    ensures var r := WipeFileOutcome(st, path, pattern, rng, sha256, seed, interrupt);
      && r.ok && path !in r.state.files && !r.state.stopFlag
      && (|pattern| > 0 ==> r.state.status == PassStatus(|pattern|, |pattern|))
      && (|pattern| > 0 && |st.files[path]| > 0 ==> r.state.progress == 100.0)
  {
    var size := |st.files[path]|;
    var plan := Plan(pattern, rng, size);
    FirstStopIs(st.stopFlag, interrupt, st.flagReads, |plan|, |plan|);
    if |pattern| > 0 {
      PlanEndsAtLastPass(pattern, rng, size, st.status);
      if size > 0 {
        ProgressDuringRun(pattern, rng, size, 0, 0, st.progress);
      }
    }
  }

  // ----- wipe_directory -----

  /** The loop attempts each remaining file at most once. */
  lemma {:induction false} WipeEachBound(st: EngineState, targets: seq<Path>, i: nat, pattern: seq<PassSpec>,
                                         rngs: nat -> Entropy, sha256: Sha256, seeds: nat -> seq<Byte>,
                                         interrupt: Interrupts)
    requires i <= |targets|
    ensures var t := WipeEach(st, targets, i, pattern, rngs, sha256, seeds, interrupt);
      t.wiped + t.failed <= |targets| - i && t.state.dirs == st.dirs
    decreases |targets| - i
  {
    if i < |targets| && !Sees(st, interrupt) {
      var o := WipeFileOutcome(Read(st, interrupt).(status := FileStatus(i + 1, |targets|)), targets[i],
                               pattern, rngs(i), sha256, seeds(i), interrupt);
      WipeEachStep(st, targets, i, pattern, rngs, sha256, seeds, interrupt, o);
      WipeEachBound(o.state, targets, i + 1, pattern, rngs, sha256, seeds, interrupt);
    } else if i < |targets| {
      WipeEachStops(st, targets, i, pattern, rngs, sha256, seeds, interrupt);
    }
  }

  /**
   * `wipe_directory` returns (0, 0) and changes nothing for a missing
   * directory; otherwise it counts at most one result per regular file,
   * and a stop requested beforehand makes it wipe nothing.
   */
  lemma WipeDirectoryCounts(st: EngineState, dir: Path, listing: seq<Path>, pattern: seq<PassSpec>,
                            rngs: nat -> Entropy, sha256: Sha256, seeds: nat -> seq<Byte>,
                            interrupt: Interrupts)
    ensures var r := WipeDirectoryOutcome(st, dir, listing, pattern, rngs, sha256, seeds, interrupt);
      && (dir !in st.dirs && dir !in st.files ==> r == Tally(0, 0, st))
      && r.wiped + r.failed <= |RegularFiles(listing, st.files)| <= |listing|
      && r.state.dirs == st.dirs
      && (st.stopFlag ==> r.wiped == 0 && r.failed == 0 && r.state.files == st.files)
  {
    var targets := RegularFiles(listing, st.files);
    WipeEachBound(st, targets, 0, pattern, rngs, sha256, seeds, interrupt);
    if st.stopFlag && 0 < |targets| {
      WipeEachStops(st, targets, 0, pattern, rngs, sha256, seeds, interrupt);
    }
  }

  /** Without a stop request a file's wipe leaves the flag clear. */
  lemma WipeFileKeepsFlagClear(st: EngineState, path: Path, pattern: seq<PassSpec>, rng: Entropy,
                               sha256: Sha256, seed: seq<Byte>, interrupt: Interrupts)
    requires !st.stopFlag && forall k :: !interrupt(k)
    ensures !WipeFileOutcome(st, path, pattern, rng, sha256, seed, interrupt).state.stopFlag
  {
    if path in st.files {
      var plan := Plan(pattern, rng, |st.files[path]|);
      FirstStopIs(st.stopFlag, interrupt, st.flagReads, |plan|, |plan|);
    }
  }

  /** Without a stop request the loop tries every remaining file. */
  lemma {:induction false} WipeEachAll(st: EngineState, targets: seq<Path>, i: nat, pattern: seq<PassSpec>,
                                       rngs: nat -> Entropy, sha256: Sha256, seeds: nat -> seq<Byte>,
                                       interrupt: Interrupts)
    requires i <= |targets| && !st.stopFlag && forall k :: !interrupt(k)
    ensures var t := WipeEach(st, targets, i, pattern, rngs, sha256, seeds, interrupt);
      t.wiped + t.failed == |targets| - i
    decreases |targets| - i
  {
    if i < |targets| {
      var st1 := Read(st, interrupt).(status := FileStatus(i + 1, |targets|));
      var o := WipeFileOutcome(st1, targets[i], pattern, rngs(i), sha256, seeds(i), interrupt);
      WipeEachStep(st, targets, i, pattern, rngs, sha256, seeds, interrupt, o);
      WipeFileKeepsFlagClear(st1, targets[i], pattern, rngs(i), sha256, seeds(i), interrupt);
      WipeEachAll(o.state, targets, i + 1, pattern, rngs, sha256, seeds, interrupt);
    }
  }

  /** Without a stop request, every regular file of the listing is either wiped or counted as failed. */
  lemma WipeDirectoryWithoutStop(st: EngineState, dir: Path, listing: seq<Path>, pattern: seq<PassSpec>,
                                 rngs: nat -> Entropy, sha256: Sha256, seeds: nat -> seq<Byte>,
                                 interrupt: Interrupts)
    requires (dir in st.dirs || dir in st.files) && !st.stopFlag && forall k :: !interrupt(k)
    ensures var r := WipeDirectoryOutcome(st, dir, listing, pattern, rngs, sha256, seeds, interrupt);
      r.wiped + r.failed == |RegularFiles(listing, st.files)|
  {
    WipeEachAll(st, RegularFiles(listing, st.files), 0, pattern, rngs, sha256, seeds, interrupt);
  }

  // ----- verify_wipe -----

  /** The integers `0 .. n - 1`. */
  function Upto(n: nat): (r: set<int>)
    ensures |r| == n
    ensures forall x :: x in r <==> 0 <= x < n
  {
    if n == 0 then {} else Upto(n - 1) + {n - 1}
  }

  /** Every subset of a finite set is at most as large. */
  lemma SubsetSize(a: set<int>, b: set<int>)
    requires a <= b
    ensures |a| <= |b|
  {
    assert b == a + (b - a) && a * (b - a) == {};
  }

  /** A window holds at most 256 distinct byte values. */
  lemma DistinctAtMost256(w: seq<Byte>)
    ensures Distinct(w) <= 256
  {
    var vals := set i | 0 <= i < |w| :: w[i] as int;
    SubsetSize(vals, Upto(256));
  }

  /**
   * For the 1024-byte windows `verify_wipe` reads, the "more than 90%
   * distinct" branch can never hold: a window passes exactly when it holds
   * at most 102 distinct byte values.
   */
  lemma WindowVerdict(w: seq<Byte>)
    requires |w| == 1024
    ensures LooksWiped(w) <==> Distinct(w) <= 102
  {
    DistinctAtMost256(w);
  }

  /** A window of one repeated byte (a zero or a solid pass) passes the check. */
  lemma SolidWindowPasses(b: Byte)
    ensures LooksWiped(Fill(b, 1024))
  {
    var w := Fill(b, 1024);
    assert w[0] == b;
    assert (set i | 0 <= i < |w| :: w[i] as int) == {b as int};
  }

  /**
   * `verify_wipe` returns True exactly when the file opens, is at least
   * 1024 bytes long, and both its first and its last 1024 bytes hold at
   * most 102 distinct values; an unreadable or shorter file fails.
   */
  lemma VerifyWipeMeans(file: Option<seq<Byte>>)
    ensures VerifyWipe(file) <==>
      file.Some? && |file.value| >= 1024
      && Distinct(file.value[..1024]) <= 102 && Distinct(file.value[|file.value| - 1024..]) <= 102
  {
    if file.Some? && |file.value| >= 1024 {
      WindowVerdict(file.value[..1024]);
      WindowVerdict(file.value[|file.value| - 1024..]);
    }
  }

  /** A file of one repeated byte (what a zero or solid final pass leaves) passes once it is 1 KiB long. */
  lemma SolidFileVerifies(b: Byte, n: nat)
    requires n >= 1024
    ensures VerifyWipe(Some(Fill(b, n)))
  {
    var c := Fill(b, n);
    SolidWindowPasses(b);
    assert c[..1024] == Fill(b, 1024);
    assert c[n - 1024..] == Fill(b, 1024);
  }
}
