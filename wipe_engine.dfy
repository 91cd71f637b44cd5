/**
 * The desktop wipe engine `SecureWipeEngine` of
 * secure-data-wiper/utils/wipe_engine.py: per-file overwrite with
 * cancellation and progress, rename-then-delete, directory wipes with
 * success/failure counts, and the entropy heuristic of `verify_wipe`.
 *
 * `WipeFileOutcome` and `WipeDirectoryOutcome` describe the two operations
 * on an `EngineState` value; the class `SecureWipeEngine` performs them with
 * the source's loops, and each method is proved to have exactly that outcome.
 */
module WipeEngine {
  import opened Common
  import opened WipePatterns
  import opened WipePlan
  import opened Storage

  /** What `wipe_file` returns, with the state it leaves. */
  datatype FileResult = FileResult(ok: bool, state: EngineState)

  /** What `wipe_directory` returns (the wiped and failed counts), with the state it leaves. */
  datatype Tally = Tally(wiped: nat, failed: nat, state: EngineState)

  /** Adds one file's result to the counts. */
  function Count(ok: bool, t: Tally): (r: Tally)
    ensures r.state == t.state && r.wiped + r.failed == t.wiped + t.failed + 1
    ensures r.wiped == (if ok then t.wiped + 1 else t.wiped)
  {
    if ok then t.(wiped := t.wiped + 1) else t.(failed := t.failed + 1)
  }

  /** The engine's fields, the files and directories it sees, and the number of stop-flag reads so far. */
  datatype EngineState = EngineState(
    stopFlag: bool,
    progress: real,
    status: Status,
    files: map<Path, seq<Byte>>,
    dirs: set<Path>,
    flagReads: nat)

  /** `hashlib.sha256(os.urandom(32)).hexdigest()[:16]`, with the 32 random bytes supplied as `seed`. */
  function RandomName(sha256: Sha256, seed: seq<Byte>): (r: string)
    ensures |r| == 16 && forall i :: 0 <= i < 16 ==> IsLowerHex(r[i])
  {
    sha256(seed)[..16]
  }

  /** `generate_random_filename`: a 16-hex-character name in the same directory. */
  function RandomFilename(path: Path, sha256: Sha256, seed: seq<Byte>): (r: Path)
    ensures |r| > 0 && r[..|r| - 1] == Dirname(path)
    ensures r[|r| - 1] == RandomName(sha256, seed)
  {
    Dirname(path) + [RandomName(sha256, seed)]
  }

  /**
   * `wipe_file(path, pattern)`: the result and the new state.  A missing
   * path fails at once.  Otherwise the plan runs until the first flag read
   * that sees a stop; a stop leaves the partly overwritten file in place,
   * and a complete run renames the file and removes it under its new name.
   */
  function WipeFileOutcome(st: EngineState, path: Path, pattern: seq<PassSpec>, rng: Entropy,
                           sha256: Sha256, seed: seq<Byte>, interrupt: Interrupts): (r: FileResult)
    ensures r.state.dirs == st.dirs
  {
    if path !in st.files then FileResult(false, st)
    else
      var plan := Plan(pattern, rng, |st.files[path]|);
      var c := FirstStop(st.stopFlag, interrupt, st.flagReads, |plan|);
      PlanFits(pattern, rng, |st.files[path]|);
      AllFitPrefix(plan, |st.files[path]|, c);
      if c == |plan| then FileResult(true, Completed(st, path, plan, RandomFilename(path, sha256, seed)))
      else FileResult(false, Interrupted(st, path, plan[..c]))
  }

  /** A read of the stop flag sees a stop: the flag was set, or is raised by this read. */
  predicate Sees(st: EngineState, interrupt: Interrupts) {
    st.stopFlag || interrupt(st.flagReads)
  }

  /** The state after one read of the stop flag: a stop it sees stays set. */
  function Read(st: EngineState, interrupt: Interrupts): (r: EngineState)
    ensures r.stopFlag == Sees(st, interrupt) && r.flagReads == st.flagReads + 1
    ensures r.progress == st.progress && r.status == st.status && r.files == st.files && r.dirs == st.dirs
  {
    st.(stopFlag := Sees(st, interrupt), flagReads := st.flagReads + 1)
  }

  /** The state after `done` ran, each step after a flag read that saw no stop; the files are not yet updated. */
  function Performed(st: EngineState, done: seq<Step>): (r: EngineState)
    ensures r.stopFlag == st.stopFlag && r.flagReads == st.flagReads + |done|
    ensures r.files == st.files && r.dirs == st.dirs
  {
    st.(progress := ProgressAfter(done, st.progress)).(status := StatusAfter(done, st.status))
      .(flagReads := st.flagReads + |done|)
  }

  /** The state after a flag read that saw a stop. */
  function Halted(st: EngineState): (r: EngineState)
    ensures r.stopFlag && r.flagReads == st.flagReads + 1
    ensures r.progress == st.progress && r.status == st.status && r.files == st.files && r.dirs == st.dirs
  {
    st.(stopFlag := true).(flagReads := st.flagReads + 1)
  }

  /** The state once all of `plan` ran: the file is gone under both its names. */
  function Completed(st: EngineState, path: Path, plan: seq<Step>, newName: Path): (r: EngineState)
    ensures r.files == st.files - {path, newName} && r.stopFlag == st.stopFlag
  {
    Performed(st, plan).(files := st.files - {path, newName})
  }

  /** The state once a stop is seen after `done`: the flag stays set and the file keeps what was written. */
  function Interrupted(st: EngineState, path: Path, done: seq<Step>): (r: EngineState)
    requires path in st.files
    ensures r.files == st.files[path := Apply(done, st.files[path])] && r.stopFlag
  {
    Halted(Performed(st, done)).(files := st.files[path := Apply(done, st.files[path])])
  }

  lemma AllFitPrefix(steps: seq<Step>, n: nat, c: nat)
    requires AllFit(steps, n) && c <= |steps|
    ensures AllFit(steps[..c], n)
  {
    assert forall i :: 0 <= i < c ==> steps[..c][i] == steps[i];
  }

  /** `[f for f in files if f.is_file()]`, evaluated before the loop starts. */
  function RegularFiles(listing: seq<Path>, files: map<Path, seq<Byte>>): (r: seq<Path>)
    ensures |r| <= |listing|
    ensures forall i :: 0 <= i < |r| ==> r[i] in files && r[i] in listing
    ensures forall p :: p in listing && p in files ==> p in r
  {
    if listing == [] then []
    else
      var rest := RegularFiles(listing[1..], files);
      if listing[0] in files then [listing[0]] + rest else rest
  }

  /**
   * The loop of `wipe_directory` from file `i` on: a stop seen before a
   * file ends the loop; otherwise the status names the file and
   * `wipe_file(..., verify=False)` runs, with the `i`-th random stream and
   * name seed.  Returns the further (wiped, failed) counts and the state.
   */
  function WipeEach(st: EngineState, targets: seq<Path>, i: nat, pattern: seq<PassSpec>,
                    rngs: nat -> Entropy, sha256: Sha256, seeds: nat -> seq<Byte>,
                    interrupt: Interrupts): (r: Tally)
    decreases |targets| - i
  {
    if i >= |targets| then Tally(0, 0, st)
    else
      var st1 := Read(st, interrupt);
      if Sees(st, interrupt) then Tally(0, 0, st1)
      else
        var o := WipeFileOutcome(st1.(status := FileStatus(i + 1, |targets|)), targets[i],
                                 pattern, rngs(i), sha256, seeds(i), interrupt);
        var t := WipeEach(o.state, targets, i + 1, pattern, rngs, sha256, seeds, interrupt);
        Count(o.ok, t)
  }

  /** `wipe_directory(dir, pattern)`, where `listing` is what `rglob('*')` (or `glob('*')`) yields. */
  function WipeDirectoryOutcome(st: EngineState, dir: Path, listing: seq<Path>, pattern: seq<PassSpec>,
                                rngs: nat -> Entropy, sha256: Sha256, seeds: nat -> seq<Byte>,
                                interrupt: Interrupts): Tally
  {
    if dir !in st.dirs && dir !in st.files then Tally(0, 0, st)
    else WipeEach(st, RegularFiles(listing, st.files), 0, pattern, rngs, sha256, seeds, interrupt)
  }

  // ----- verify_wipe -----

  /** `len(set(window))`: the number of distinct byte values. */
  function Distinct(w: seq<Byte>): nat {
    |set i | 0 <= i < |w| :: w[i] as int|
  }

  /**
   * `ratio < 0.1 or ratio > 0.9` with `ratio = len(set(w)) / len(w)`
   * (0 for an empty window), written in integers; for the 1024-byte
   * windows the check reads, it agrees with the floating-point test.
   */
  predicate LooksWiped(w: seq<Byte>) {
    if |w| == 0 then true else 10 * Distinct(w) < |w| || 10 * Distinct(w) > 9 * |w|
  }

  /**
   * `verify_wipe`: `None` when the file cannot be opened.  A file shorter
   * than 1024 bytes makes `seek(-1024, 2)` raise, which yields False.
   */
  function VerifyWipe(file: Option<seq<Byte>>): bool {
    match file
    case None => false
    case Some(c) =>
      if |c| < 1024 then false
      else LooksWiped(c[..1024]) && LooksWiped(c[|c| - 1024..])
  }


  /** The counts so far plus those still to come make the whole outcome. */
  ghost predicate Accumulates(total: Tally, wiped: nat, failed: nat, t: Tally) {
    total == Tally(wiped + t.wiped, failed + t.failed, t.state)
  }

  /** Counting one more file moves it from the outcome still to come to the counts so far. */
  lemma AccumulatesCount(total: Tally, wiped: nat, failed: nat, ok: bool, t: Tally, t': Tally)
    requires Accumulates(total, wiped, failed, t) && t == Count(ok, t')
    ensures Accumulates(total, if ok then wiped + 1 else wiped, if ok then failed else failed + 1, t')
  {
  }

  lemma WipeEachCons(st: EngineState, targets: seq<Path>, i: nat, pattern: seq<PassSpec>,
                     rngs: nat -> Entropy, sha256: Sha256, seeds: nat -> seq<Byte>, interrupt: Interrupts)
    requires i < |targets|
    ensures var st1 := Read(st, interrupt);
      var o := WipeFileOutcome(st1.(status := FileStatus(i + 1, |targets|)), targets[i],
                               pattern, rngs(i), sha256, seeds(i), interrupt);
      var t := WipeEach(o.state, targets, i + 1, pattern, rngs, sha256, seeds, interrupt);
      WipeEach(st, targets, i, pattern, rngs, sha256, seeds, interrupt)
        == if Sees(st, interrupt) then Tally(0, 0, st1) else Count(o.ok, t)
  {
  }

  lemma WipeEachEnd(st: EngineState, targets: seq<Path>, i: nat, pattern: seq<PassSpec>,
                    rngs: nat -> Entropy, sha256: Sha256, seeds: nat -> seq<Byte>, interrupt: Interrupts)
    requires i >= |targets|
    ensures WipeEach(st, targets, i, pattern, rngs, sha256, seeds, interrupt) == Tally(0, 0, st)
  {
  }

  // ----- the loops of wipe_file, step by step -----

  /** Where a run of `wipe_file`'s loops stands: stopped or not, the bytes of the open file, the engine state. */
  datatype Run = Run(stopped: bool, image: seq<Byte>, state: EngineState)

  /** What performing step `s` does to the engine's fields. */
  function Effect(s: Step, st: EngineState): (r: EngineState)
    ensures r.stopFlag == st.stopFlag && r.flagReads == st.flagReads && r.files == st.files && r.dirs == st.dirs
  {
    match s
    case BeginPass(n, t) => st.(status := PassStatus(n, t))
    case WriteChunk(_, _, _, p) => st.(progress := p)
  }

  /** Performing `steps`, each after one read of the stop flag, until a read sees a stop. */
  function RunSteps(steps: seq<Step>, image: seq<Byte>, st: EngineState, interrupt: Interrupts): (r: Run)
    ensures |r.image| == |image|
    decreases |steps|
  {
    if steps == [] then Run(false, image, st)
    else if Sees(st, interrupt) then Run(true, image, Read(st, interrupt))
    else RunSteps(steps[1..], Exec(steps[0], image), Effect(steps[0], Read(st, interrupt)), interrupt)
  }

  /** Running `a + b` runs `a`, then `b` unless `a` was stopped. */
  lemma {:induction false} RunStepsAppend(a: seq<Step>, b: seq<Step>, image: seq<Byte>, st: EngineState,
                                          interrupt: Interrupts)
    requires AllFit(a, |image|) && AllFit(b, |image|)
    ensures AllFit(a + b, |image|)
    ensures RunSteps(a + b, image, st, interrupt)
         == var r := RunSteps(a, image, st, interrupt);
            if r.stopped then r else RunSteps(b, r.image, r.state, interrupt)
    decreases |a|
  {
    assert AllFit(a + b, |image|) by {
      assert forall i :: 0 <= i < |a + b| ==> (a + b)[i] == if i < |a| then a[i] else b[i - |a|];
    }
    if a == [] {
      assert a + b == b;
    } else if !Sees(st, interrupt) {
      assert (a + b)[0] == a[0] && (a + b)[1..] == a[1..] + b;
      AllFitTail(a, |image|);
      RunStepsAppend(a[1..], b, Exec(a[0], image), Effect(a[0], Read(st, interrupt)), interrupt);
    }
  }

  lemma AllFitTail(steps: seq<Step>, n: nat)
    requires steps != [] && AllFit(steps, n)
    ensures Fits(steps[0], n) && AllFit(steps[1..], n)
  {
    assert forall i :: 0 <= i < |steps| - 1 ==> steps[1..][i] == steps[i + 1];
  }

  /** Every one of the first `n` flag reads from state `st` saw the flag clear. */
  predicate ReadsClear(st: EngineState, interrupt: Interrupts, n: nat) {
    (n > 0 ==> !st.stopFlag) && forall k :: st.flagReads <= k < st.flagReads + n ==> !interrupt(k)
  }

  /** Performing the first step and then the others. */
  lemma AfterFirst(steps: seq<Step>, image: seq<Byte>, st: EngineState)
    requires steps != [] && AllFit(steps, |image|)
    ensures Fits(steps[0], |image|) && AllFit(steps[1..], |image|)
    ensures Apply(steps, image) == Apply(steps[1..], Exec(steps[0], image))
    ensures StatusAfter(steps, st.status) == StatusAfter(steps[1..], Effect(steps[0], st).status)
    ensures ProgressAfter(steps, st.progress) == ProgressAfter(steps[1..], Effect(steps[0], st).progress)
  {
    AllFitTail(steps, |image|);
    assert steps == [steps[0]] + steps[1..];
    assert [steps[0]][..0] == [];
    StatusAfterAppend([steps[0]], steps[1..], st.status);
    ProgressAfterAppend([steps[0]], steps[1..], st.progress);
  }

  /** A run in which no read sees a stop performs every step. */
  lemma {:induction false} RunStepsCompletes(steps: seq<Step>, image: seq<Byte>, st: EngineState, interrupt: Interrupts)
    requires AllFit(steps, |image|) && ReadsClear(st, interrupt, |steps|)
    ensures RunSteps(steps, image, st, interrupt) == Run(false, Apply(steps, image), Performed(st, steps))
    decreases |steps|
  {
    if steps != [] {
      var st1 := Effect(steps[0], Read(st, interrupt));
      AfterFirst(steps, image, Read(st, interrupt));
      RunStepsCompletes(steps[1..], Exec(steps[0], image), st1, interrupt);
    }
  }

  /** A run whose read number `c` is the first to see a stop performs the first `c` steps and sets the flag. */
  lemma {:induction false} RunStepsStopped(steps: seq<Step>, image: seq<Byte>, st: EngineState, interrupt: Interrupts, c: nat)
    requires AllFit(steps, |image|) && c < |steps|
    requires ReadsClear(st, interrupt, c) && (st.stopFlag || interrupt(st.flagReads + c))
    ensures AllFit(steps[..c], |image|)
    ensures RunSteps(steps, image, st, interrupt) == Run(true, Apply(steps[..c], image), Halted(Performed(st, steps[..c])))
    decreases c
  {
    AllFitPrefix(steps, |image|, c);
    if c == 0 {
      assert steps[..c] == [];
    } else {
      var st0 := Read(st, interrupt);
      var st1 := Effect(steps[0], st0);
      var rest := steps[1..][..c - 1];
      assert steps[..c][1..] == rest && steps[..c][0] == steps[0];
      AfterFirst(steps[..c], image, st0);
      AllFitTail(steps, |image|);
      RunStepsStopped(steps[1..], Exec(steps[0], image), st1, interrupt, c - 1);
      assert Performed(st1, rest) == Performed(st, steps[..c]);
    }
  }


  /** The start of pass `k + 1`: the status changes and the pass's chunks come next. */
  lemma PassStart(pattern: seq<PassSpec>, k: nat, rng: Entropy, size: nat, image: seq<Byte>, st: EngineState,
                  interrupt: Interrupts, st': EngineState)
    requires k < |pattern| && !Sees(st, interrupt)
    requires st' == Read(st, interrupt).(status := PassStatus(k + 1, |pattern|))
    ensures RunSteps(PlanFrom(pattern, k, rng, size), image, st, interrupt)
         == RunSteps(PassSteps(pattern[k], k + 1, |pattern|, rng, size, 0, 0) + PlanFrom(pattern, k + 1, rng, size),
                     image, st', interrupt)
  {
    var steps := PlanFrom(pattern, k, rng, size);
    PlanFromCons(pattern, k, rng, size);
    assert steps[0] == BeginPass(k + 1, |pattern|);
  }

  /** The next chunk of pass `n`: the counter advances, the bytes are written and the progress is set. */
  lemma ChunkStep(spec: PassSpec, n: nat, total: nat, rng: Entropy, size: nat, later: seq<Step>,
                  interrupt: Interrupts, written: nat, pos: nat, image: seq<Byte>, st: EngineState,
                  chunk: nat, data: seq<Byte>, written': nat, pos': nat, image': seq<Byte>, st': EngineState)
    requires total > 0 && pos <= written < size == |image| && !Sees(st, interrupt)
    requires chunk == Min(4096, size - written) && written' == written + chunk
    requires data == if spec.RandomData? then Random(rng, n, written, chunk) else Take(spec.data, chunk)
    requires pos + |data| <= size && pos' == pos + |data| && image' == Splice(image, pos, data)
    requires st' == Read(st, interrupt).(progress := Progress(n, written', size, total))
    ensures RunSteps(PassSteps(spec, n, total, rng, size, written, pos) + later, image, st, interrupt)
         == RunSteps(PassSteps(spec, n, total, rng, size, written', pos') + later, image', st', interrupt)
  {
    var s := WriteChunk(pos, data, written', Progress(n, written', size, total));
    var rest := PassSteps(spec, n, total, rng, size, written', pos');
    PassStepsCons(spec, n, total, rng, size, written, pos, chunk, data);
    ConsAppend(s, rest, later);
    var steps := PassSteps(spec, n, total, rng, size, written, pos) + later;
    assert steps == [s] + (rest + later);
    RunStepsCons(s, rest + later, image, st, interrupt);
    assert Exec(s, image) == image' && Effect(s, Read(st, interrupt)) == st';
    assert RunSteps(steps, image, st, interrupt) == RunSteps(rest + later, image', st', interrupt);
  }

  /** A run whose next step is `s`, after a read that saw no stop. */
  lemma RunStepsCons(s: Step, more: seq<Step>, image: seq<Byte>, st: EngineState, interrupt: Interrupts)
    requires !Sees(st, interrupt)
    ensures RunSteps([s] + more, image, st, interrupt)
         == RunSteps(more, Exec(s, image), Effect(s, Read(st, interrupt)), interrupt)
  {
    assert ([s] + more)[0] == s && ([s] + more)[1..] == more;
  }

  /** A stop seen before any remaining step ends the run where it stands. */
  lemma RunStepsHalts(steps: seq<Step>, image: seq<Byte>, st: EngineState, interrupt: Interrupts)
    requires steps != [] && Sees(st, interrupt)
    ensures RunSteps(steps, image, st, interrupt) == Run(true, image, Read(st, interrupt))
  {
  }

  /** `WipeFileOutcome` is the run of the plan on the file, then the file's fate. */
  lemma PlanOutcome(st: EngineState, path: Path, pattern: seq<PassSpec>, rng: Entropy,
                    sha256: Sha256, seed: seq<Byte>, interrupt: Interrupts)
    requires path in st.files
    ensures AllFit(Plan(pattern, rng, |st.files[path]|), |st.files[path]|)
    ensures var r := RunSteps(Plan(pattern, rng, |st.files[path]|), st.files[path], st, interrupt);
      WipeFileOutcome(st, path, pattern, rng, sha256, seed, interrupt)
        == if r.stopped then FileResult(false, r.state.(files := st.files[path := r.image]))
           else FileResult(true, r.state.(files := st.files - {path, RandomFilename(path, sha256, seed)}))
  {
    var content := st.files[path];
    var plan := Plan(pattern, rng, |content|);
    PlanFits(pattern, rng, |content|);
    var c := FirstStop(st.stopFlag, interrupt, st.flagReads, |plan|);
    if c == |plan| {
      RunStepsCompletes(plan, content, st, interrupt);
    } else {
      RunStepsStopped(plan, content, st, interrupt, c);
    }
  }

  /** A run of the plan that stopped leaves the file as far as it got. */
  lemma OutcomeStopped(st0: EngineState, path: Path, pattern: seq<PassSpec>, rng: Entropy,
                       sha256: Sha256, seed: seq<Byte>, interrupt: Interrupts, image: seq<Byte>, st: EngineState)
    requires path in st0.files
    requires RunSteps(Plan(pattern, rng, |st0.files[path]|), st0.files[path], st0, interrupt) == Run(true, image, st)
    ensures WipeFileOutcome(st0, path, pattern, rng, sha256, seed, interrupt)
         == FileResult(false, st.(files := st0.files[path := image]))
  {
    PlanOutcome(st0, path, pattern, rng, sha256, seed, interrupt);
  }

  /** A run of the plan that completed ends with the file renamed and removed. */
  lemma OutcomeCompleted(st0: EngineState, path: Path, pattern: seq<PassSpec>, rng: Entropy,
                         sha256: Sha256, seed: seq<Byte>, interrupt: Interrupts, image: seq<Byte>, st: EngineState)
    requires path in st0.files
    requires RunSteps(Plan(pattern, rng, |st0.files[path]|), st0.files[path], st0, interrupt) == Run(false, image, st)
    ensures WipeFileOutcome(st0, path, pattern, rng, sha256, seed, interrupt)
         == FileResult(true, st.(files := st0.files - {path, RandomFilename(path, sha256, seed)}))
  {
    PlanOutcome(st0, path, pattern, rng, sha256, seed, interrupt);
  }

  /** One file of the directory loop, once the flag read saw no stop and `wipe_file` returned `o`. */
  lemma WipeEachStep(st: EngineState, targets: seq<Path>, i: nat, pattern: seq<PassSpec>,
                     rngs: nat -> Entropy, sha256: Sha256, seeds: nat -> seq<Byte>, interrupt: Interrupts,
                     o: FileResult)
    requires i < |targets| && !Sees(st, interrupt)
    requires o == WipeFileOutcome(Read(st, interrupt).(status := FileStatus(i + 1, |targets|)), targets[i],
                                  pattern, rngs(i), sha256, seeds(i), interrupt)
    ensures WipeEach(st, targets, i, pattern, rngs, sha256, seeds, interrupt)
         == Count(o.ok, WipeEach(o.state, targets, i + 1, pattern, rngs, sha256, seeds, interrupt))
  {
    WipeEachCons(st, targets, i, pattern, rngs, sha256, seeds, interrupt);
  }

  /** A flag read that sees a stop ends the directory loop. */
  lemma WipeEachStops(st: EngineState, targets: seq<Path>, i: nat, pattern: seq<PassSpec>,
                      rngs: nat -> Entropy, sha256: Sha256, seeds: nat -> seq<Byte>, interrupt: Interrupts)
    requires i < |targets| && Sees(st, interrupt)
    ensures WipeEach(st, targets, i, pattern, rngs, sha256, seeds, interrupt) == Tally(0, 0, Read(st, interrupt))
  {
    WipeEachCons(st, targets, i, pattern, rngs, sha256, seeds, interrupt);
  }

  /** `SecureWipeEngine`: the stop flag, progress and status it updates, and the files it works on. */
  class SecureWipeEngine {
    var stopFlag: bool
    var progress: real
    var status: Status
    var files: map<Path, seq<Byte>>
    var dirs: set<Path>
    var flagReads: nat

    function State(): EngineState
      reads this
    {
      EngineState(stopFlag, progress, status, files, dirs, flagReads)
    }

    /** `__init__`: flag clear, progress 0, status "Idle", over the given files and directories. */
    constructor (files0: map<Path, seq<Byte>>, dirs0: set<Path>)
      ensures State() == EngineState(false, 0.0, Idle, files0, dirs0, 0)
    {
      stopFlag, progress, status := false, 0.0, Idle;
      files, dirs, flagReads := files0, dirs0, 0;
    }

    /** `stop_wipe`: sets the flag; nothing else changes. */
    method StopWipe()
      modifies this
      ensures State() == old(State()).(stopFlag := true)
    {
      stopFlag := true;
    }

    /** `reset`: clears the flag, progress 0, status "Idle". */
    method Reset()
      modifies this
      ensures State() == old(State()).(stopFlag := false, progress := 0.0, status := Idle)
    {
      stopFlag, progress, status := false, 0.0, Idle;
    }

    /** `self.stop_flag.is_set()`, where a concurrent `stop_wipe` may arrive just before the read. */
    method ReadStop(interrupt: Interrupts) returns (stop: bool)
      modifies this
      ensures stop == Sees(old(State()), interrupt) && State() == Read(old(State()), interrupt)
    {
      stop := stopFlag || interrupt(flagReads);
      stopFlag := stop;
      flagReads := flagReads + 1;
    }

    /**
     * One iteration of the chunk loop of pass `n` of `total`, `written`
     * bytes into the pass: a stop check, then the next chunk and the
     * progress.  `later` are the steps after this pass, and `goal` the
     * outcome of the whole run.
     */
    method WriteChunk(f: Handle, spec: PassSpec, n: nat, total: nat, rng: Entropy, written: nat,
                      ghost later: seq<Step>, ghost goal: Run, interrupt: Interrupts)
      returns (stopped: bool, written': nat)
      requires f.isOpen && total > 0 && f.pos <= written < f.data.Length
      requires RunSteps(PassSteps(spec, n, total, rng, f.data.Length, written, f.pos) + later, f.data[..], State(), interrupt)
            == goal
      modifies this, f`pos, f.data
      ensures files == old(files) && dirs == old(dirs)
      ensures stopped ==> goal == Run(true, f.data[..], State())
      ensures !stopped ==> written < written' <= f.data.Length && f.pos <= written'
      ensures !stopped ==> RunSteps(PassSteps(spec, n, total, rng, f.data.Length, written', f.pos) + later, f.data[..],
                                    State(), interrupt) == goal
    {
      var size := f.data.Length;
      ghost var before := State();
      stopped := ReadStop(interrupt);
      var chunk := Min(4096, size - written);
      var data := if spec.RandomData? then Random(rng, n, written, chunk) else Take(spec.data, chunk);
      if stopped {
        PassStepsCons(spec, n, total, rng, size, written, f.pos, chunk, data);
        RunStepsHalts(PassSteps(spec, n, total, rng, size, written, f.pos) + later, f.data[..], before, interrupt);
        return true, written;
      }
      ChunkFits(spec, n, rng, size, written, f.pos, chunk, data);
      ghost var pos0, image0 := f.pos, f.data[..];
      f.Write(data);
      written' := written + chunk;
      progress := Progress(n, written', size, total);
      ChunkStep(spec, n, total, rng, size, later, interrupt, written, pos0, image0, before, chunk, data,
                written', f.pos, f.data[..], State());
    }

    /**
     * The chunk loop of pass `n` of `total` on the open file `f` (already
     * at offset 0), chunk by chunk until the pass is done or stopped.
     */
    method WriteChunks(f: Handle, spec: PassSpec, n: nat, total: nat, rng: Entropy,
                       ghost later: seq<Step>, ghost goal: Run, interrupt: Interrupts) returns (stopped: bool)
      requires f.isOpen
      requires total > 0 && f.pos == 0
      requires RunSteps(PassSteps(spec, n, total, rng, f.data.Length, 0, 0) + later, f.data[..], State(), interrupt) == goal
      modifies this, f`pos, f`syncs, f.data
      ensures f.data == old(f.data) && files == old(files) && dirs == old(dirs)
      ensures stopped ==> goal == Run(true, f.data[..], State())
      ensures !stopped ==> RunSteps(later, f.data[..], State(), interrupt) == goal
    {
      var size := f.data.Length;
      var written := 0;
      while written < size
        invariant f.pos <= written && f.data == old(f.data) && f.isOpen
        invariant files == old(files) && dirs == old(dirs)
        invariant RunSteps(PassSteps(spec, n, total, rng, size, written, f.pos) + later, f.data[..], State(), interrupt)
               == goal
        decreases size - written
      {
        stopped, written := WriteChunk(f, spec, n, total, rng, written, later, goal, interrupt);
        if stopped {
          return;
        }
      }
      PassStepsDone(spec, n, total, rng, size, written, f.pos);
      assert [] + later == later;
      stopped := false;
    }

    /**
     * One iteration of the pass loop of `wipe_file`: a stop check, the
     * status "Pass n/total", a seek to 0, the chunk loop and `fsync`.
     * `goal` is the outcome of the whole run.
     */
    method WipePass(f: Handle, pattern: seq<PassSpec>, k: nat, rng: Entropy, ghost goal: Run,
                    interrupt: Interrupts) returns (stopped: bool)
      requires f.isOpen
      requires k < |pattern|
      requires RunSteps(PlanFrom(pattern, k, rng, f.data.Length), f.data[..], State(), interrupt) == goal
      modifies this, f`pos, f`syncs, f.data
      ensures f.data == old(f.data) && files == old(files) && dirs == old(dirs)
      ensures stopped ==> goal == Run(true, f.data[..], State())
      ensures !stopped ==> RunSteps(PlanFrom(pattern, k + 1, rng, f.data.Length), f.data[..], State(), interrupt) == goal
    {
      var size := f.data.Length;
      ghost var before := State();
      stopped := ReadStop(interrupt);
      if stopped {
        PlanFromCons(pattern, k, rng, size);
        RunStepsHalts(PlanFrom(pattern, k, rng, size), f.data[..], before, interrupt);
        return;
      }
      status := PassStatus(k + 1, |pattern|);
      f.Rewind();
      PassStart(pattern, k, rng, size, f.data[..], before, interrupt, State());
      stopped := WriteChunks(f, pattern[k], k + 1, |pattern|, rng, PlanFrom(pattern, k + 1, rng, size), goal, interrupt);
      if !stopped {
        f.Sync();
      }
    }

    /**
     * `wipe_file(path, pattern)`: for each pass, a stop check, the status,
     * a seek to 0 and the chunk loop, then `fsync`; after the last pass,
     * rename and delete.  `rng` supplies the random bytes, `seed` the bytes
     * hashed for the new name.
     */
    method WipeFile(path: Path, pattern: seq<PassSpec>, rng: Entropy, sha256: Sha256, seed: seq<Byte>,
                    interrupt: Interrupts) returns (ok: bool)
      modifies this
      ensures FileResult(ok, State()) == WipeFileOutcome(old(State()), path, pattern, rng, sha256, seed, interrupt)
    {
      if path !in files {
        return false;
      }
      ghost var st0 := State();
      var content := files[path];
      var size := |content|;
      ghost var goal := RunSteps(Plan(pattern, rng, size), content, st0, interrupt);
      var f := new Handle.Open(content);
      var k := 0;
      while k < |pattern|
        invariant k <= |pattern| && fresh(f) && fresh(f.data) && f.data.Length == size && f.isOpen
        invariant files == st0.files && dirs == st0.dirs
        invariant RunSteps(PlanFrom(pattern, k, rng, size), f.data[..], State(), interrupt) == goal
      {
        var stop := WipePass(f, pattern, k, rng, goal, interrupt);
        if stop {
          ghost var st := State();
          files := files[path := f.data[..]];
          OutcomeStopped(st0, path, pattern, rng, sha256, seed, interrupt, f.data[..], st);
          return false;
        }
        k := k + 1;
      }
      ghost var st := State();
      files := files - {path, RandomFilename(path, sha256, seed)};
      OutcomeCompleted(st0, path, pattern, rng, sha256, seed, interrupt, f.data[..], st);
      ok := true;
    }

    /**
     * `wipe_directory(dir, pattern)`: the files of `listing` that are
     * regular files, each after a stop check and the status "Wiping file
     * i/total", through `wipe_file` with the `i`-th random stream and name
     * seed; returns the wiped and failed counts.
     */
    method WipeDirectory(dir: Path, listing: seq<Path>, pattern: seq<PassSpec>, rngs: nat -> Entropy,
                         sha256: Sha256, seeds: nat -> seq<Byte>, interrupt: Interrupts)
      returns (wiped: nat, failed: nat)
      modifies this
      ensures Tally(wiped, failed, State())
           == WipeDirectoryOutcome(old(State()), dir, listing, pattern, rngs, sha256, seeds, interrupt)
    {
      if dir !in dirs && dir !in files {
        return 0, 0;
      }
      var targets := RegularFiles(listing, files);
      ghost var goal := WipeEach(State(), targets, 0, pattern, rngs, sha256, seeds, interrupt);
      wiped, failed := 0, 0;
      var i := 0;
      while i < |targets|
        invariant i <= |targets|
        invariant Accumulates(goal, wiped, failed, WipeEach(State(), targets, i, pattern, rngs, sha256, seeds, interrupt))
      {
        ghost var before := State();
        var stop := ReadStop(interrupt);
        if stop {
          WipeEachStops(before, targets, i, pattern, rngs, sha256, seeds, interrupt);
          return;
        }
        status := FileStatus(i + 1, |targets|);
        var ok := WipeFile(targets[i], pattern, rngs(i), sha256, seeds(i), interrupt);
        WipeEachStep(before, targets, i, pattern, rngs, sha256, seeds, interrupt, FileResult(ok, State()));
        AccumulatesCount(goal, wiped, failed, ok, WipeEach(before, targets, i, pattern, rngs, sha256, seeds, interrupt),
                         WipeEach(State(), targets, i + 1, pattern, rngs, sha256, seeds, interrupt));
        if ok {
          wiped := wiped + 1;
        } else {
          failed := failed + 1;
        }
        i := i + 1;
      }
      WipeEachEnd(State(), targets, i, pattern, rngs, sha256, seeds, interrupt);
    }
  }
}
